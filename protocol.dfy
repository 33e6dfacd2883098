/** The protocol engine of the `SigFox` class (sigfox/sigfox.py) as transitions on
    a driver state: the connection flag, the believed configuration mode, the log of
    port interactions and the port's remaining answers. */
module Protocol {
  import opened Wire
  import opened Reader

  /** Polls of the default wait: 0.5 s at a 0.1 s step (sigfox.py:121, 149). */
  const DEFAULT_ATTEMPTS: nat := 5

  /** Highest memory address `read_memory` accepts (sigfox.py:82). */
  const MAX_ADDRESS: int := 0x7F

  /** The exceptions the class raises. */
  datatype Error =
    | AddressOutOfRange  // `read_memory` with an address outside 0x00-0x7F
    | LengthOutOfRange   // `chr(len(payload))` in `send` with more than 255 bytes
    | NoPort             // `disconnect` before any `connect`: `self.ser` does not exist

  datatype Outcome = Done | Failed(error: Error)

  /** The fields of a `SigFox` object: `_connected`, whether `ser` has been created,
      `_config_mode`, and the port seen through its log and its scripted answers. */
  datatype Driver = Driver(
    connected: bool,
    hasPort: bool,
    configMode: bool,
    trace: seq<Event>,
    incoming: Incoming)

  /** The state after an operation that may raise, and whether it did. */
  datatype After = After(outcome: Outcome, state: Driver)

  /** `__init__` (sigfox.py:31-43): `_reset` sets the mode, the port is not open. */
  function Initial(env: Incoming): Driver
  {
    Driver(false, false, true, [], env)
  }

  /** `connect` (sigfox.py:46-48): a new port is opened. */
  function Connect(d: Driver): Driver
  {
    d.(connected := true, hasPort := true, trace := d.trace + [Open])
  }

  /** `disconnect` (sigfox.py:51-53). */
  function Disconnect(d: Driver): After
  {
    if !d.hasPort then After(Failed(NoPort), d)
    else After(Done, d.(connected := false, trace := d.trace + [Close]))
  }

  /** `_reset` (sigfox.py:113-118), without the reset-line pulse. */
  function Reset(d: Driver): Driver
  {
    d.(configMode := true)
  }

  /** `_write(x, wait, force)` (sigfox.py:136-166) on an open port; its returned list
      is `Respond(d.incoming, limit, force).result`. */
  function WriteStep(d: Driver, x: byte, limit: nat, force: bool): Driver
  {
    var s := Respond(d.incoming, limit, force);
    d.(trace := d.trace + [Out(x)] + s.events, incoming := s.rest)
  }

  /** The lazy connect at the head of `_cmd` (sigfox.py:122-123). */
  function Attach(d: Driver): Driver
  {
    if d.connected then d else Connect(d)
  }

  /** The mode switch of `_cmd` (sigfox.py:125-131). The transition byte is written
      with `_write`'s default wait and without `force`. */
  function EnsureMode(d: Driver, configMode: bool): Driver
  {
    if configMode && !d.configMode then
      WriteStep(d, ENTER_CONF_MODE, DEFAULT_ATTEMPTS, false).(configMode := true)
    else if !configMode && d.configMode then
      WriteStep(d, EXIT_CONF_MODE, DEFAULT_ATTEMPTS, false).(configMode := false)
    else d
  }

  /** `_cmd(x, wait, force, config_mode)` (sigfox.py:121-133); `_write`'s result is
      dropped. */
  function Cmd(d: Driver, x: byte, limit: nat, force: bool, configMode: bool): Driver
  {
    WriteStep(EnsureMode(Attach(d), configMode), x, limit, force)
  }

  /** `read_memory(address)` (sigfox.py:81-86): the address goes out through a
      `_cmd` with the default `config_mode=False`. */
  function ReadMemory(d: Driver, address: int): After
  {
    if address < 0x00 || address > MAX_ADDRESS then After(Failed(AddressOutOfRange), d)
    else
      var d1 := Cmd(d, MEMORY_READ_ONE_BYTE, DEFAULT_ATTEMPTS, false, true);
      After(Done, Cmd(d1, address, DEFAULT_ATTEMPTS, false, false))
  }

  /** The payload loop of `send` (sigfox.py:109-110): one `_cmd` per byte. */
  function SendBytes(d: Driver, payload: seq<byte>): Driver
    decreases |payload|
  {
    if payload == [] then d
    else SendBytes(Cmd(d, payload[0], DEFAULT_ATTEMPTS, false, false), payload[1..])
  }

  /** `send(payload)` (sigfox.py:100-110). `chr` of a length above 255 raises after
      `_reset` and before anything is written. */
  function Send(d: Driver, payload: seq<byte>): After
  {
    var cleared := if d.configMode then d.(configMode := false) else d;
    var r := Reset(cleared);
    if |payload| > 0xFF then After(Failed(LengthOutOfRange), r)
    else After(Done, SendBytes(Cmd(r, |payload|, DEFAULT_ATTEMPTS, false, false), payload))
  }

  /** The invariant of a `SigFox` object: it is connected only through a port. */
  predicate Valid(d: Driver)
  {
    d.connected ==> d.hasPort
  }

  /** One `_write` only appends to the log: its byte, then nothing but reads; it
      changes neither flag. */
  lemma WriteStepFacts(d: Driver, x: byte, limit: nat, force: bool)
    ensures d.trace <= WriteStep(d, x, limit, force).trace
    ensures var t := WriteStep(d, x, limit, force).trace;
      |t| > |d.trace| && t[|d.trace|] == Out(x) && Inbound(t[|d.trace| + 1..])
    ensures Written(WriteStep(d, x, limit, force).trace) == Written(d.trace) + [x]
    ensures Opens(WriteStep(d, x, limit, force).trace) == Opens(d.trace)
    ensures WriteStep(d, x, limit, force).connected == d.connected
    ensures WriteStep(d, x, limit, force).hasPort == d.hasPort
    ensures WriteStep(d, x, limit, force).configMode == d.configMode
  {
    var s := Respond(d.incoming, limit, force);
    RespondChunks(d.incoming, limit, force);
    OutThenInbound(d.trace, x, s.events);
    var t := WriteStep(d, x, limit, force).trace;
    assert t[|d.trace| + 1..] == s.events;
  }

  /** The lazy connect opens the port once when it is not connected, and writes
      nothing. */
  lemma AttachFacts(d: Driver)
    ensures Attach(d).connected && (Valid(d) ==> Attach(d).hasPort)
    ensures Attach(d).configMode == d.configMode
    ensures Attach(d).trace == d.trace + (if d.connected then [] else [Open])
    ensures Written(Attach(d).trace) == Written(d.trace)
    ensures Opens(Attach(d).trace) == Opens(d.trace) + (if d.connected then 0 else 1)
  {
    if !d.connected {
      WrittenAppend(d.trace, [Open]);
      OpensAppend(d.trace, [Open]);
      assert [Open][1..] == [];
    }
  }

  /** The bytes that `_cmd` puts before its command: the transition byte when the
      believed mode differs from the one asked for, and nothing otherwise. */
  function Transition(believed: bool, wanted: bool): seq<byte>
  {
    if wanted && !believed then [ENTER_CONF_MODE]
    else if !wanted && believed then [EXIT_CONF_MODE]
    else []
  }

  /** The mode switch ends in the mode asked for and writes exactly the transition. */
  lemma EnsureModeFacts(d: Driver, configMode: bool)
    ensures EnsureMode(d, configMode).configMode == configMode
    ensures EnsureMode(d, configMode).connected == d.connected
    ensures EnsureMode(d, configMode).hasPort == d.hasPort
    ensures d.trace <= EnsureMode(d, configMode).trace
    ensures Written(EnsureMode(d, configMode).trace) == Written(d.trace) + Transition(d.configMode, configMode)
    ensures Opens(EnsureMode(d, configMode).trace) == Opens(d.trace)
  {
    if configMode && !d.configMode {
      WriteStepFacts(d, ENTER_CONF_MODE, DEFAULT_ATTEMPTS, false);
    } else if !configMode && d.configMode {
      WriteStepFacts(d, EXIT_CONF_MODE, DEFAULT_ATTEMPTS, false);
    }
  }

  /** `_cmd` leaves the driver connected in the mode asked for, and writes exactly
      the transition byte (if the mode changes) and then its command. */
  lemma CmdFacts(d: Driver, x: byte, limit: nat, force: bool, configMode: bool)
    ensures Cmd(d, x, limit, force, configMode).configMode == configMode
    ensures Cmd(d, x, limit, force, configMode).connected
    ensures Valid(d) ==> Cmd(d, x, limit, force, configMode).hasPort
    ensures configMode && !d.configMode ==>
      Written(Cmd(d, x, limit, force, configMode).trace) == Written(d.trace) + [0x00, x]
    ensures !configMode && d.configMode ==>
      Written(Cmd(d, x, limit, force, configMode).trace) == Written(d.trace) + [0x58, x]
    ensures configMode == d.configMode ==>
      Written(Cmd(d, x, limit, force, configMode).trace) == Written(d.trace) + [x]
    ensures Written(Cmd(d, x, limit, force, configMode).trace) ==
      Written(d.trace) + Transition(d.configMode, configMode) + [x]
    ensures Opens(Cmd(d, x, limit, force, configMode).trace) == Opens(d.trace) + (if d.connected then 0 else 1)
  {
    var c := Attach(d);
    AttachFacts(d);
    var m := EnsureMode(c, configMode);
    EnsureModeFacts(c, configMode);
    WriteStepFacts(m, x, limit, force);
  }

  /** The bytes `_cmd` writes and the mode it leaves, on their own: the two clauses of
      `CmdFacts` that longer chains of commands need, kept apart so that those proofs
      do not carry the rest of `CmdFacts` into the solver. */
  lemma CmdWrites(d: Driver, x: byte, limit: nat, force: bool, configMode: bool)
    ensures Cmd(d, x, limit, force, configMode).configMode == configMode
    ensures Written(Cmd(d, x, limit, force, configMode).trace) ==
      Written(d.trace) + Transition(d.configMode, configMode) + [x]
  {
    CmdFacts(d, x, limit, force, configMode);
  }

  /** `_cmd` keeps the log up to its lazy connect. */
  lemma CmdExtends(d: Driver, x: byte, limit: nat, force: bool, configMode: bool)
    ensures Attach(d).trace <= Cmd(d, x, limit, force, configMode).trace
  {
    EnsureModeFacts(Attach(d), configMode);
    WriteStepFacts(EnsureMode(Attach(d), configMode), x, limit, force);
  }

  /** After its lazy connect, `_cmd` writes exactly the transition and its command
      and opens nothing. */
  lemma CmdAfterAttach(d: Driver, x: byte, limit: nat, force: bool, configMode: bool)
    ensures var c := Attach(d).trace;
      var t := Cmd(d, x, limit, force, configMode).trace;
      c <= t &&
      Written(t[|c|..]) == Transition(d.configMode, configMode) + [x] &&
      Opens(t[|c|..]) == 0
  {
    var c := Attach(d).trace;
    var t := Cmd(d, x, limit, force, configMode).trace;
    var w := Transition(d.configMode, configMode) + [x];
    assert c <= t by { CmdExtends(d, x, limit, force, configMode); }
    assert Written(t) == Written(c) + w && Opens(t) == Opens(c) + 0 by {
      AttachFacts(d);
      CmdFacts(d, x, limit, force, configMode);
    }
    SuffixEffects(c, t, w, 0);
  }

  /** `_cmd` only appends to the log, and the open it may do comes before every byte
      it writes. */
  lemma CmdConnectsFirst(d: Driver, x: byte, limit: nat, force: bool, configMode: bool)
    ensures var k := |d.trace| + (if d.connected then 0 else 1);
      var t := Cmd(d, x, limit, force, configMode).trace;
      k <= |t| &&
      t[..k] == d.trace + (if d.connected then [] else [Open]) &&
      Written(t[k..]) == Transition(d.configMode, configMode) + [x] &&
      Opens(t[k..]) == 0
  {
    var c := Attach(d).trace;
    assert c == d.trace + (if d.connected then [] else [Open]) by { AttachFacts(d); }
    CmdAfterAttach(d, x, limit, force, configMode);
  }

  /** Two `_cmd` calls asking for the same mode: the second writes only its command
      and does not reopen the port. */
  lemma CmdIdempotent(d: Driver, x: byte, y: byte, limit: nat, force: bool, configMode: bool)
    ensures
      var d1 := Cmd(d, x, DEFAULT_ATTEMPTS, false, configMode);
      Written(Cmd(d1, y, limit, force, configMode).trace) == Written(d1.trace) + [y] &&
      Opens(Cmd(d1, y, limit, force, configMode).trace) == Opens(d1.trace)
  {
    var d1 := Cmd(d, x, DEFAULT_ATTEMPTS, false, configMode);
    CmdFacts(d, x, DEFAULT_ATTEMPTS, false, configMode);
    CmdFacts(d1, y, limit, force, configMode);
  }

  /** `disconnect` after a `connect` never raises, also when repeated. */
  lemma DisconnectTwice(d: Driver)
    requires d.hasPort
    ensures Disconnect(d).outcome == Done
    ensures Disconnect(Disconnect(d).state).outcome == Done
    ensures !Disconnect(Disconnect(d).state).state.connected
  {
  }

  /** After `disconnect`, the next command opens the port exactly once, right after
      the close. */
  lemma ReconnectOnce(d: Driver, x: byte, configMode: bool)
    requires d.hasPort
    ensures
      var down := Disconnect(d).state;
      var up := Cmd(down, x, DEFAULT_ATTEMPTS, false, configMode);
      Opens(up.trace) == Opens(d.trace) + 1 && up.connected &&
      |up.trace| > |d.trace| + 2 && up.trace[|d.trace|..|d.trace| + 2] == [Close, Open]
  {
    var down := Disconnect(d).state;
    OpensAppend(d.trace, [Close]);
    assert Opens([Close]) == 0 by { assert [Close][1..] == []; }
    CmdFacts(down, x, DEFAULT_ATTEMPTS, false, configMode);
    CmdConnectsFirst(down, x, DEFAULT_ATTEMPTS, false, configMode);
    var up := Cmd(down, x, DEFAULT_ATTEMPTS, false, configMode);
    assert up.trace[..|down.trace| + 1] == d.trace + [Close, Open];
  }

  /** A status query (`print_config`, `read_id`, `read_quality`,
      `read_signal_strength`, `read_temperature`) writes 0x00 only outside
      configuration mode, then its opcode, and stays in configuration mode. */
  lemma QueryFacts(d: Driver, opcode: byte)
    ensures Cmd(d, opcode, DEFAULT_ATTEMPTS, false, true).configMode
    ensures Cmd(d, opcode, DEFAULT_ATTEMPTS, false, true).connected
    ensures Written(Cmd(d, opcode, DEFAULT_ATTEMPTS, false, true).trace) ==
      Written(d.trace) + (if d.configMode then [] else [ENTER_CONF_MODE]) + [opcode]
  {
    CmdFacts(d, opcode, DEFAULT_ATTEMPTS, false, true);
  }

  /** `read_memory` rejects an out-of-range address before it connects, writes or
      changes the mode. */
  lemma ReadMemoryRejects(d: Driver, address: int)
    requires address < 0x00 || address > 0x7F
    ensures ReadMemory(d, address) == After(Failed(AddressOutOfRange), d)
  {
  }

  /** `read_memory` with an address in range writes 0x00 (outside configuration
      mode), 0x59, 0x58 and the address. */
  lemma ReadMemoryWrites(d: Driver, address: int)
    requires 0x00 <= address <= 0x7F
    ensures ReadMemory(d, address).outcome == Done
    ensures Written(ReadMemory(d, address).state.trace) ==
      Written(d.trace) + Transition(d.configMode, true) + [0x59, 0x58, address]
  {
    CmdPair(d, MEMORY_READ_ONE_BYTE, address, true, false);
    assert ReadMemory(d, address).state ==
      Cmd(Cmd(d, MEMORY_READ_ONE_BYTE, DEFAULT_ATTEMPTS, false, true), address, DEFAULT_ATTEMPTS, false, false);
    LeaveConfig(Written(d.trace), Transition(d.configMode, true), MEMORY_READ_ONE_BYTE, address);
  }

  /** `read_memory` with an address in range ends connected, outside configuration
      mode, having opened the port only if it was not connected. */
  lemma ReadMemoryMode(d: Driver, address: int)
    requires 0x00 <= address <= 0x7F
    ensures !ReadMemory(d, address).state.configMode
    ensures ReadMemory(d, address).state.connected
    ensures Opens(ReadMemory(d, address).state.trace) == Opens(d.trace) + (if d.connected then 0 else 1)
  {
    var d1 := Cmd(d, MEMORY_READ_ONE_BYTE, DEFAULT_ATTEMPTS, false, true);
    CmdFacts(d, MEMORY_READ_ONE_BYTE, DEFAULT_ATTEMPTS, false, true);
    CmdFacts(d1, address, DEFAULT_ATTEMPTS, false, false);
  }

  /** Two `_cmd` calls with the default wait write two transitions and two commands. */
  lemma CmdPair(d: Driver, x: byte, y: byte, m1: bool, m2: bool)
    ensures Written(Cmd(Cmd(d, x, DEFAULT_ATTEMPTS, false, m1), y, DEFAULT_ATTEMPTS, false, m2).trace) ==
      Written(d.trace) + Transition(d.configMode, m1) + [x] + Transition(m1, m2) + [y]
  {
    CmdWrites(d, x, DEFAULT_ATTEMPTS, false, m1);
    CmdWrites(Cmd(d, x, DEFAULT_ATTEMPTS, false, m1), y, DEFAULT_ATTEMPTS, false, m2);
  }

  /** Leaving configuration mode between two bytes puts 0x58 between them. Plain
      sequence arithmetic, kept as its own lemma so that `ReadMemoryWrites` stays
      cheap for the solver. */
  lemma LeaveConfig(w: seq<byte>, t: seq<byte>, x: byte, y: byte)
    ensures w + t + [x] + Transition(true, false) + [y] == w + t + [x, EXIT_CONF_MODE, y]
  {
  }

  /** Outside configuration mode and connected, the payload loop writes the payload
      bytes and nothing else. */
  lemma {:induction false} SendBytesFacts(d: Driver, payload: seq<byte>)
    requires d.connected && !d.configMode
    ensures Written(SendBytes(d, payload).trace) == Written(d.trace) + payload
    ensures Opens(SendBytes(d, payload).trace) == Opens(d.trace)
    ensures SendBytes(d, payload).connected && !SendBytes(d, payload).configMode
    decreases |payload|
  {
    if payload != [] {
      var d1 := Cmd(d, payload[0], DEFAULT_ATTEMPTS, false, false);
      CmdFacts(d, payload[0], DEFAULT_ATTEMPTS, false, false);
      SendBytesFacts(d1, payload[1..]);
      assert [payload[0]] + payload[1..] == payload;
    }
  }

  /** `send` writes 0x58, the length and the payload whatever the mode was, and ends
      outside configuration mode; a payload over 255 bytes raises before any write,
      with the mode reset to configuration. */
  lemma SendFacts(d: Driver, payload: seq<byte>)
    ensures |payload| <= 0xFF ==>
      Send(d, payload).outcome == Done &&
      Written(Send(d, payload).state.trace) == Written(d.trace) + [0x58, |payload|] + payload &&
      !Send(d, payload).state.configMode &&
      Send(d, payload).state.connected &&
      Opens(Send(d, payload).state.trace) == Opens(d.trace) + (if d.connected then 0 else 1)
    ensures |payload| > 0xFF ==>
      Send(d, payload) == After(Failed(LengthOutOfRange), d.(configMode := true))
  {
    if |payload| <= 0xFF {
      var r := d.(configMode := true);
      var d1 := Cmd(r, |payload|, DEFAULT_ATTEMPTS, false, false);
      CmdFacts(r, |payload|, DEFAULT_ATTEMPTS, false, false);
      SendBytesFacts(d1, payload);
    }
  }
}
