/** The `SigFox` driver object (sigfox/sigfox.py:8-166): its fields are updated in
    place, and each method is specified by the matching transition of `Protocol`. */
module Device {
  import opened Wire
  import opened Reader
  import Protocol

  class SigFox {
    /** `_connected` */
    var connected: bool
    /** whether `self.ser` exists, i.e. `connect` has run at least once */
    var hasPort: bool
    /** `_config_mode`: the driver's belief about the modem's mode */
    var configMode: bool
    /** every interaction with the serial port so far */
    var trace: seq<Event>
    /** what the serial port will answer from now on */
    var incoming: Incoming

    function State(): Protocol.Driver
      reads this
    {
      Protocol.Driver(connected, hasPort, configMode, trace, incoming)
    }

    ghost predicate Valid()
      reads this
    {
      Protocol.Valid(State())
    }

    /** `__init__` (sigfox.py:31-43), without the pin set-up. */
    constructor (env: Incoming)
      ensures Valid()
      ensures State() == Protocol.Initial(env)
      ensures configMode && !connected && trace == []
    {
      hasPort := false;
      trace := [];
      incoming := env;
      new;
      Reset();
      connected := false;
    }

    /** `connect` (sigfox.py:46-48). */
    method Connect()
      modifies this
      ensures Valid()
      ensures State() == Protocol.Connect(old(State()))
      ensures connected && configMode == old(configMode)
    {
      trace := trace + [Open];
      hasPort := true;
      connected := true;
    }

    /** `disconnect` (sigfox.py:51-53); raises when no port was ever opened. */
    method Disconnect() returns (r: Protocol.Outcome)
      requires Valid()
      modifies this
      ensures Valid()
      ensures Protocol.After(r, State()) == Protocol.Disconnect(old(State()))
      ensures r == Protocol.Done <==> old(hasPort)
      ensures r == Protocol.Done ==> !connected && trace == old(trace) + [Close]
    {
      if !hasPort {
        return Protocol.Failed(Protocol.NoPort);
      }
      trace := trace + [Close];
      connected := false;
      r := Protocol.Done;
    }

    /** `_reset` (sigfox.py:113-118): the reset-line pulse is not modelled. */
    method Reset()
      modifies this`configMode
      ensures State() == Protocol.Reset(old(State()))
      ensures configMode && connected == old(connected)
    {
      configMode := true;
    }

    /** `ser.inWaiting()`: the next scripted count. */
    method PollPort() returns (n: nat)
      modifies this`trace, this`incoming
      ensures n == old(incoming).Avail() && incoming == old(incoming).Polled()
      ensures trace == old(trace) + [InWaiting(n)]
    {
      n := incoming.Avail();
      incoming := incoming.Polled();
      trace := trace + [InWaiting(n)];
    }

    /** `ser.read(size)`: the next scripted chunk. */
    method ReadPort(size: nat) returns (chunk: seq<byte>)
      modifies this`trace, this`incoming
      ensures chunk == old(incoming).Chunk() && incoming == old(incoming).Consumed()
      ensures trace == old(trace) + [Read(size, chunk)]
    {
      chunk := incoming.Chunk();
      incoming := incoming.Consumed();
      trace := trace + [Read(size, chunk)];
    }

    /** The wait of `_write` (sigfox.py:139-156): one poll after the full wait when
        forced, else up to `limit` polls (`limit` is the attempt bound `wait/0.1`)
        stopping at the first positive count. */
    method AwaitReply(limit: nat, force: bool) returns (unread: nat)
      modifies this`trace, this`incoming
      ensures var p := Wait(old(incoming), limit, force);
        unread == p.avail && trace == old(trace) + p.events && incoming == p.rest
    {
      ghost var start := incoming;
      ghost var polled: seq<Event> := [];
      unread := 0;
      if force {
        unread := PollPort();
        polled := [InWaiting(unread)];
      } else {
        var attempts := 0;
        while attempts < limit
          invariant 0 <= attempts <= limit
          invariant unread == 0
          invariant trace == old(trace) + polled
          invariant PollWindow(start, limit) ==
            PollWindow(incoming, limit - attempts).(events := polled + PollWindow(incoming, limit - attempts).events)
        {
          ghost var before := incoming;
          unread := PollPort();
          if unread > 0 {
            polled := polled + [InWaiting(unread)];
            assert PollWindow(before, limit - attempts) == Phase(unread, [InWaiting(unread)], incoming);
            break;
          }
          assert PollWindow(before, limit - attempts).events ==
            [InWaiting(0)] + PollWindow(incoming, limit - attempts - 1).events;
          polled := polled + [InWaiting(0)];
          attempts := attempts + 1;
        }
      }
      assert Wait(start, limit, force) == Phase(unread, polled, incoming);
    }

    /** One round of the drain loop (sigfox.py:161-163): read `size` bytes, then poll. */
    method ReadThenPoll(size: nat) returns (chunk: seq<byte>, unread: nat)
      modifies this`trace, this`incoming
      ensures chunk == old(incoming).Chunk()
      ensures unread == old(incoming).Consumed().Avail()
      ensures incoming == old(incoming).Consumed().Polled()
      ensures trace == old(trace) + [Read(size, chunk), InWaiting(unread)]
    {
      chunk := ReadPort(size);
      unread := PollPort();
    }

    /** The drain loop of `_write` (sigfox.py:158-163): read the count just reported,
        poll again, until the port reports nothing waiting. */
    method DrainPort(waiting: nat) returns (result: seq<seq<byte>>)
      modifies this`trace, this`incoming
      ensures var s := Drain(waiting, old(incoming));
        result == s.result && trace == old(trace) + s.events && incoming == s.rest
    {
      ghost var start := incoming;
      ghost var drained: seq<Event> := [];
      var unread := waiting;
      result := [];
      while unread > 0
        invariant trace == old(trace) + drained
        invariant Drain(waiting, start).result == result + Drain(unread, incoming).result
        invariant Drain(waiting, start).events == drained + Drain(unread, incoming).events
        invariant Drain(waiting, start).rest == Drain(unread, incoming).rest
        decreases |incoming.counts|, unread
      {
        ghost var before := incoming;
        DrainRound(Drain(waiting, start), result, drained, unread, before);
        var out, next := ReadThenPoll(unread);
        result := result + [out];
        drained := drained + [Read(unread, out), InWaiting(next)];
        unread := next;
      }
    }

    /** `_write(x, wait, force)` (sigfox.py:136-166). */
    method Write(x: byte, limit: nat, force: bool) returns (result: seq<seq<byte>>)
      requires connected
      modifies this`trace, this`incoming
      ensures State() == Protocol.WriteStep(old(State()), x, limit, force)
      ensures result == Respond(old(incoming), limit, force).result
    {
      trace := trace + [Out(x)];
      var unread := AwaitReply(limit, force);
      result := DrainPort(unread);
    }

    /** `_cmd(x, wait, force, config_mode)` (sigfox.py:121-133). */
    method Cmd(x: byte, limit: nat, force: bool, wantConfig: bool)
      requires Valid()
      modifies this
      ensures Valid()
      ensures State() == Protocol.Cmd(old(State()), x, limit, force, wantConfig)
      ensures connected && configMode == wantConfig
      ensures Written(trace) == Written(old(trace)) + Protocol.Transition(old(configMode), wantConfig) + [x]
      ensures Opens(trace) == Opens(old(trace)) + (if old(connected) then 0 else 1)
    {
      if !connected {
        Connect();
      }
      if wantConfig && !configMode {
        var reply := Write(ENTER_CONF_MODE, Protocol.DEFAULT_ATTEMPTS, false);
        configMode := true;
      } else if !wantConfig && configMode {
        var reply := Write(EXIT_CONF_MODE, Protocol.DEFAULT_ATTEMPTS, false);
        configMode := false;
      }
      var reply := Write(x, limit, force);
      Protocol.CmdFacts(old(State()), x, limit, force, wantConfig);
    }

    /** `print_config` (sigfox.py:61-62). */
    method PrintConfig()
      requires Valid()
      modifies this
      ensures Valid()
      ensures State() == Protocol.Cmd(old(State()), LIST_CONFIGURATION, Protocol.DEFAULT_ATTEMPTS, false, true)
      ensures connected && configMode
      ensures Written(trace) ==
        Written(old(trace)) + (if old(configMode) then [] else [ENTER_CONF_MODE]) + [0x30]
    {
      Cmd(LIST_CONFIGURATION, Protocol.DEFAULT_ATTEMPTS, false, true);
    }

    /** `read_id` (sigfox.py:65-66). */
    method ReadId()
      requires Valid()
      modifies this
      ensures Valid()
      ensures State() == Protocol.Cmd(old(State()), READ_ID, Protocol.DEFAULT_ATTEMPTS, false, true)
      ensures connected && configMode
      ensures Written(trace) ==
        Written(old(trace)) + (if old(configMode) then [] else [ENTER_CONF_MODE]) + [0x39]
    {
      Cmd(READ_ID, Protocol.DEFAULT_ATTEMPTS, false, true);
    }

    /** `read_quality` (sigfox.py:69-70). */
    method ReadQuality()
      requires Valid()
      modifies this
      ensures Valid()
      ensures State() == Protocol.Cmd(old(State()), QUALITY_INDICATOR, Protocol.DEFAULT_ATTEMPTS, false, true)
      ensures connected && configMode
      ensures Written(trace) ==
        Written(old(trace)) + (if old(configMode) then [] else [ENTER_CONF_MODE]) + [0x51]
    {
      Cmd(QUALITY_INDICATOR, Protocol.DEFAULT_ATTEMPTS, false, true);
    }

    /** `read_signal_strength` (sigfox.py:73-74). */
    method ReadSignalStrength()
      requires Valid()
      modifies this
      ensures Valid()
      ensures State() == Protocol.Cmd(old(State()), SIGNAL_STRENGTH, Protocol.DEFAULT_ATTEMPTS, false, true)
      ensures connected && configMode
      ensures Written(trace) ==
        Written(old(trace)) + (if old(configMode) then [] else [ENTER_CONF_MODE]) + [0x53]
    {
      Cmd(SIGNAL_STRENGTH, Protocol.DEFAULT_ATTEMPTS, false, true);
    }

    /** `read_temperature` (sigfox.py:77-78). */
    method ReadTemperature()
      requires Valid()
      modifies this
      ensures Valid()
      ensures State() == Protocol.Cmd(old(State()), TEMPERATURE_MONITORING, Protocol.DEFAULT_ATTEMPTS, false, true)
      ensures connected && configMode
      ensures Written(trace) ==
        Written(old(trace)) + (if old(configMode) then [] else [ENTER_CONF_MODE]) + [0x55]
    {
      Cmd(TEMPERATURE_MONITORING, Protocol.DEFAULT_ATTEMPTS, false, true);
    }

    /** `read_memory(address)` (sigfox.py:81-86). */
    method ReadMemory(address: int) returns (r: Protocol.Outcome)
      requires Valid()
      modifies this
      ensures Valid()
      ensures Protocol.After(r, State()) == Protocol.ReadMemory(old(State()), address)
      ensures (address < 0x00 || address > 0x7F) ==>
        r == Protocol.Failed(Protocol.AddressOutOfRange) && State() == old(State())
      ensures 0x00 <= address <= 0x7F ==>
        r == Protocol.Done && connected && !configMode &&
        Written(trace) ==
          Written(old(trace)) + (if old(configMode) then [] else [ENTER_CONF_MODE]) + [0x59, 0x58, address]
    {
      if address < 0x00 || address > Protocol.MAX_ADDRESS {
        return Protocol.Failed(Protocol.AddressOutOfRange);
      }
      Cmd(MEMORY_READ_ONE_BYTE, Protocol.DEFAULT_ATTEMPTS, false, true);
      Cmd(address, Protocol.DEFAULT_ATTEMPTS, false, false);
      r := Protocol.Done;
      Protocol.ReadMemoryWrites(old(State()), address);
      Protocol.ReadMemoryMode(old(State()), address);
    }

    /** The payload loop of `send` (sigfox.py:109-110): one `_cmd` per byte. */
    method SendPayload(payload: seq<byte>)
      requires Valid()
      modifies this
      ensures Valid()
      ensures State() == Protocol.SendBytes(old(State()), payload)
    {
      ghost var start := State();
      for i := 0 to |payload|
        invariant Valid()
        invariant Protocol.SendBytes(State(), payload[i..]) == Protocol.SendBytes(start, payload)
      {
        assert payload[i..][1..] == payload[i + 1..];
        Cmd(payload[i], Protocol.DEFAULT_ATTEMPTS, false, false);
      }
      assert payload[|payload|..] == [];
    }

    /** `send(payload)` (sigfox.py:100-110). */
    method Send(payload: seq<byte>) returns (r: Protocol.Outcome)
      requires Valid()
      modifies this
      ensures Valid()
      ensures Protocol.After(r, State()) == Protocol.Send(old(State()), payload)
      ensures |payload| <= 0xFF ==>
        r == Protocol.Done && connected && !configMode &&
        Written(trace) == Written(old(trace)) + [0x58, |payload|] + payload
      ensures |payload| > 0xFF ==>
        r == Protocol.Failed(Protocol.LengthOutOfRange) && configMode && trace == old(trace)
    {
      if configMode {
        configMode := false;
      }
      Reset();
      if |payload| > 0xFF {
        return Protocol.Failed(Protocol.LengthOutOfRange);
      }
      Cmd(|payload|, Protocol.DEFAULT_ATTEMPTS, false, false);
      SendPayload(payload);
      r := Protocol.Done;
      Protocol.SendFacts(old(State()), payload);
    }
  }
}
