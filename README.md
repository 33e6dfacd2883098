# SigFox driver protocol engine in Dafny

This project models the protocol engine of the `SigFox` driver class (`sigfox/sigfox.py`), a
Raspberry Pi driver for a SigFox radio modem that sits on a serial port.

The driver keeps two flags: whether it is connected, and its belief about whether the modem is in
configuration mode. Every command goes through `_cmd`, which:

- opens the port lazily;
- when the believed mode differs from the one the command needs, writes one transition byte
  (0x00 to enter configuration mode, 0x58 to leave it);
- then writes the command byte through `_write`.

`_write` writes its byte and then waits for a reply. When forced, it polls the port's waiting-byte
count once after the full wait. Otherwise it polls while its attempt counter is below the float
quotient `wait/0.1`, stopping at the first positive count. It then drains the port chunk by chunk
until the count is zero.

The model has four modules:

- `Wire` (`wire.dfy`):
  - one-byte values and the opcodes;
  - the log of port interactions, `Event` = `Open`, `Close`, `Out(b)`, `InWaiting(n)` and
    `Read(size, chunk)`;
  - its projections: `Written`, the bytes put on the wire, and `Opens`, how often the port was
    opened.
- `Reader` (`reader.dfy`):
  - the serial port as a scripted oracle, `Incoming`: the successive counts `inWaiting()` returns
    and the successive chunks `read` returns;
  - the read side of `_write` as functions: `PollWindow`, `ForcedPoll`, `Wait`, `Drain` and
    `Respond`;
  - lemmas about those functions.
- `Protocol` (`protocol.dfy`):
  - the driver's fields as a value, `Driver`;
  - every operation as a transition function on it, with its error outcome where the source
    raises (`After(outcome, state)`);
  - the lemmas that state what each operation puts on the wire.
- `Device` (`device.dfy`):
  - the class `SigFox`, whose fields are updated in place;
  - its methods, including the poll loop and the drain loop of `_write` and the payload loop of
    `send`;
  - each method is proved to move the object from `State()` to the matching `Protocol` transition
    of the old state.

The float quotient becomes an integer attempt bound `limit`: the number of integers below
`wait/0.1` as Python computes it. The default `wait=0.5` gives `DEFAULT_ATTEMPTS = 5`. Rounding
can change the count: `wait=0.3` gives 3 polls, because 0.3/0.1 evaluates to 2.9999999999999996.

The code is followed as written:

- `_cmd` writes the enter byte 0x00 once.
- `read_memory` sends its address through a `_cmd` with `config_mode=False`, so 0x58 comes right
  before the address.
- `send` has no explicit length check. For a payload of more than 255 bytes, the Python 2
  `chr(len(payload))` raises after `_reset` has run and before anything is written. Python 2's
  `chr` only accepts 0-255; Python 3's accepts values up to 0x10FFFF and would not raise. This is
  modelled as `Failed(LengthOutOfRange)`, with the mode left at configuration.
- `_write` does not strip or otherwise alter what it reads.
- `connect` only opens the port. It does not prime it or change the mode.
- `disconnect` before any `connect` raises, because `self.ser` does not exist yet. The field
  `hasPort` records whether `self.ser` has been created, and this case is `Failed(NoPort)`.

## Model

| member | source | states |
|---|---|---|
| Reader.PollWindow | sigfox/sigfox.py:147-156 | the non-forced wait: up to `limit` polls, stopping at the first positive count, which it returns; 0 when every poll saw 0 |
| Reader.ForcedPoll | sigfox/sigfox.py:142-144 | the forced wait: a single poll after the full wait, returning its count |
| Reader.Wait | sigfox/sigfox.py:142-156 | the wait of `_write`: the forced poll or the poll window, chosen by `force` |
| Reader.Drain | sigfox/sigfox.py:158-163 | the drain loop: while the last count is positive, read that many bytes, append the chunk and poll again |
| Reader.Respond | sigfox/sigfox.py:139-166 | everything `_write` does after its write: the wait, then the drain from the count the wait returned; the chunk list is what `_write` returns |
| Protocol.Initial | sigfox/sigfox.py:31-43 | the state after `__init__`: configuration mode from `_reset`, not connected, no port, empty log |
| Protocol.Connect | sigfox/sigfox.py:46-48 | `connect`: a port is opened (an `Open` in the log) and the driver is connected; the mode is kept |
| Protocol.Disconnect | sigfox/sigfox.py:51-53 | `disconnect`: fails with `NoPort` when `self.ser` was never created, else closes the port and clears connected |
| Protocol.Reset | sigfox/sigfox.py:113-118 | `_reset`: the believed mode becomes configuration mode; nothing else changes |
| Protocol.WriteStep | sigfox/sigfox.py:136-166 | `_write`: one `Out` event for its byte, then the events of `Respond`; the port moves on accordingly |
| Protocol.Attach | sigfox/sigfox.py:122-123 | the lazy connect at the head of `_cmd`: `connect` only when not connected |
| Protocol.EnsureMode | sigfox/sigfox.py:125-131 | the mode switch of `_cmd`: write 0x00 and set the mode when entering, write 0x58 and clear it when leaving, nothing when the modes agree |
| Protocol.Cmd | sigfox/sigfox.py:121-133 | `_cmd`: the lazy connect, the mode switch, then `_write` of the command with the given wait and force |
| Protocol.ReadMemory | sigfox/sigfox.py:81-86 | `read_memory`: fails with `AddressOutOfRange` outside 0x00-0x7F, else `_cmd(0x59, config_mode=True)` followed by `_cmd(address)` |
| Protocol.SendBytes | sigfox/sigfox.py:109-110 | the payload loop of `send`: one `_cmd` per payload byte, in order, outside configuration mode |
| Protocol.Send | sigfox/sigfox.py:100-110 | `send`: clear the mode, `_reset`, fail with `LengthOutOfRange` above 255 bytes, else `_cmd` of the length and then the payload loop |
| Reader.PollWindowFacts | sigfox/sigfox.py:146-156 | the non-forced wait polls at most `limit` times; the i-th poll reports the port's i-th count; every poll but the last saw 0; a positive result is the count of the last poll; a 0 result means all `limit` polls were made and all saw 0; no chunk is consumed |
| Reader.DrainFacts | sigfox/sigfox.py:158-163 | the drain loop returns nothing exactly when entered with 0 waiting; it returns the port's chunks in arrival order, two events per chunk; it only reads; its first read asks for the count it was entered with; every later read asks for exactly the positive count reported by the poll just before it |
| Reader.WaitFacts | sigfox/sigfox.py:142-156 | the wait only polls and leaves the chunks alone; a positive result is the count of its last poll; the result is 0 exactly when no count in the window was positive (non-forced), or when the single poll saw 0 (forced) |
| Reader.RespondChunks | sigfox/sigfox.py:139-166 | the list `_write` returns holds the port's chunks in arrival order, and its reply phase only reads (which chunks, and where it stops, is `RespondDrain`) |
| Reader.RespondReadSizes | sigfox/sigfox.py:142-163 | every `read` of `_write` follows a poll and asks for exactly the positive count that poll reported |
| Reader.RespondEmpty | sigfox/sigfox.py:142-166 | `_write` returns an empty list exactly when no count in its poll window was positive (one poll when forced) |
| Reader.PollWindowPolls | sigfox/sigfox.py:147-156 | the poll window makes at most `limit` polls, the i-th reporting the port's i-th count, and consumes no chunk |
| Reader.PollWindowStops | sigfox/sigfox.py:149-156 | the poll window stops at the first positive count and returns it; it returns 0 only after `limit` polls that all saw 0 |
| Reader.PollWindowRest | sigfox/sigfox.py:147-156 | after the poll window, the port's counts go on exactly where its polls left them |
| Reader.WaitRest | sigfox/sigfox.py:142-156 | after the wait, the port's counts go on where its polls left them and its chunks are untouched |
| Reader.DrainReads | sigfox/sigfox.py:158-161 | the `j`-th read of the drain loop asks for the entry count first and then for the count the previous poll reported, and returns the port's `j`-th chunk |
| Reader.DrainPollCounts | sigfox/sigfox.py:161-163 | the poll after the `j`-th read of the drain loop reports the port's `j`-th count |
| Reader.DrainContinues | sigfox/sigfox.py:158-163 | the drain loop reads again only after a positive count |
| Reader.DrainStops | sigfox/sigfox.py:158-163 | the drain loop stops at the first count of 0 the port reports |
| Reader.DrainPolls | sigfox/sigfox.py:158-163 | the drain loop alternates reads with polls reporting the port's successive counts; each read after the first asks for the count just reported; it goes on while that count is positive and stops at the first 0 |
| Reader.RespondDrain | sigfox/sigfox.py:139-166 | after its wait, `_write` reads one chunk per read event, in arrival order; each read asks for the count last reported; the polls between reads report the port's next counts; the reply ends at the first 0 after the wait |
| Reader.DrainRound | sigfox/sigfox.py:159-163 | one round of the drain loop moves one chunk and its read and poll events from what remains to be drained to what has been drained |
| Protocol.WriteStepFacts | sigfox/sigfox.py:136-166 | `_write` extends the log by its byte's `Out` event followed only by polls and reads, so it writes exactly that byte, opens nothing and changes neither flag |
| Protocol.AttachFacts | sigfox/sigfox.py:122-123 | the lazy connect leaves the driver connected, appends one `Open` exactly when it was not connected, writes nothing and keeps the mode |
| Protocol.EnsureModeFacts | sigfox/sigfox.py:125-131 | the mode switch ends in the mode asked for, writes exactly the transition byte (0x00 to enter, 0x58 to leave, nothing when the modes agree), only extends the log and opens nothing |
| Protocol.CmdFacts | sigfox/sigfox.py:121-133 | after `_cmd(c, config_mode=m)` the mode is `m` and the driver is connected; it writes `[0x00, c]` when entering configuration mode, `[0x58, c]` when leaving it, and `[c]` when the modes agree; it opens the port once exactly when it was not connected |
| Protocol.CmdWrites | sigfox/sigfox.py:125-133 | `_cmd` ends in the mode asked for and writes the transition bytes for the old and new modes, then its command |
| Protocol.CmdExtends | sigfox/sigfox.py:121-133 | `_cmd` keeps the log up to and including its lazy connect |
| Protocol.CmdAfterAttach | sigfox/sigfox.py:125-133 | after the lazy connect, `_cmd` writes exactly the transition and its command and opens nothing |
| Protocol.CmdConnectsFirst | sigfox/sigfox.py:121-133 | `_cmd` on a disconnected driver opens the port right after the old log and before every byte it writes; all the bytes come after that point and no other open follows |
| Protocol.CmdIdempotent | sigfox/sigfox.py:125-133 | a second `_cmd` asking for the same mode as the first writes only its command byte and does not reopen the port |
| Protocol.CmdPair | sigfox/sigfox.py:85-86 | two consecutive `_cmd` calls write their transitions and commands in order |
| Protocol.DisconnectTwice | sigfox/sigfox.py:51-53 | `disconnect` after a port exists succeeds, also when repeated, and leaves the driver disconnected |
| Protocol.ReconnectOnce | sigfox/sigfox.py:46-53 | after `disconnect`, the next command opens the port exactly once, right after the close, and leaves the driver connected |
| Protocol.QueryFacts | sigfox/sigfox.py:61-78 | a status query writes 0x00 only when outside configuration mode, then its opcode, and ends connected in configuration mode |
| Protocol.ReadMemoryRejects | sigfox/sigfox.py:81-83 | `read_memory` with an address below 0x00 or above 0x7F raises and leaves the state untouched: no connect, no write, no mode change |
| Protocol.ReadMemoryWrites | sigfox/sigfox.py:85-86 | `read_memory` with an address in range succeeds and writes 0x00 (only outside configuration mode), then 0x59, 0x58 and the address |
| Protocol.ReadMemoryMode | sigfox/sigfox.py:85-86 | `read_memory` with an address in range ends connected and outside configuration mode, and opens the port only if it was not connected |
| Protocol.SendBytesFacts | sigfox/sigfox.py:109-110 | outside configuration mode and connected, the payload loop writes exactly the payload bytes, opens nothing, and stays connected outside configuration mode |
| Protocol.SendFacts | sigfox/sigfox.py:100-118 | `send(p)` with at most 255 bytes writes exactly `[0x58, len(p)] + p` whatever the prior mode, and ends connected outside configuration mode; with more than 255 bytes it raises before any write, with only the mode reset to configuration |
| Device.SigFox.constructor | sigfox/sigfox.py:31-43 | a new driver is disconnected, in configuration mode, has no port and an empty log |
| Device.SigFox.Connect | sigfox/sigfox.py:46-48 | `connect` opens a port, appends `Open` to the log, sets connected and keeps the mode |
| Device.SigFox.Disconnect | sigfox/sigfox.py:51-53 | `disconnect` succeeds exactly when a port exists, then appends `Close` and clears connected; otherwise it raises and changes nothing |
| Device.SigFox.Reset | sigfox/sigfox.py:113-118 | `_reset` sets configuration mode and leaves everything else, including connected, unchanged |
| Device.SigFox.PollPort | sigfox/sigfox.py:144 | `inWaiting()` returns the port's next count and logs it |
| Device.SigFox.ReadPort | sigfox/sigfox.py:159 | `read(size)` returns the port's next chunk and logs it |
| Device.SigFox.AwaitReply | sigfox/sigfox.py:139-156 | the wait loop returns the count of `Wait`, logs exactly its polls and leaves the port where `Wait` does |
| Device.SigFox.ReadThenPoll | sigfox/sigfox.py:159-163 | one drain round reads the port's next chunk, then polls the next count, and logs both in that order |
| Device.SigFox.DrainPort | sigfox/sigfox.py:158-163 | the drain loop returns the chunk list of `Drain`, logs exactly its events and leaves the port where `Drain` does |
| Device.SigFox.Write | sigfox/sigfox.py:136-166 | `_write` moves the driver to `WriteStep` of the old state and returns the chunk list of `Respond` |
| Device.SigFox.Cmd | sigfox/sigfox.py:121-133 | `_cmd` moves the driver to `Protocol.Cmd` of the old state, ends connected in the mode asked for, writes the transition and then the command, and opens the port only if it was not connected |
| Device.SigFox.PrintConfig | sigfox/sigfox.py:61-62 | `print_config` writes 0x00 only outside configuration mode, then 0x30, and ends connected in configuration mode |
| Device.SigFox.ReadId | sigfox/sigfox.py:65-66 | `read_id` writes 0x00 only outside configuration mode, then 0x39, and ends connected in configuration mode |
| Device.SigFox.ReadQuality | sigfox/sigfox.py:69-70 | `read_quality` writes 0x00 only outside configuration mode, then 0x51, and ends connected in configuration mode |
| Device.SigFox.ReadSignalStrength | sigfox/sigfox.py:73-74 | `read_signal_strength` writes 0x00 only outside configuration mode, then 0x53, and ends connected in configuration mode |
| Device.SigFox.ReadTemperature | sigfox/sigfox.py:77-78 | `read_temperature` writes 0x00 only outside configuration mode, then 0x55, and ends connected in configuration mode |
| Device.SigFox.ReadMemory | sigfox/sigfox.py:81-86 | `read_memory` raises on an address outside 0x00-0x7F and changes nothing; otherwise it writes 0x00 (only outside configuration mode), 0x59, 0x58 and the address, and ends connected outside configuration mode |
| Device.SigFox.SendPayload | sigfox/sigfox.py:109-110 | the payload loop moves the driver to `SendBytes` of the old state, one `_cmd` per byte |
| Device.SigFox.Send | sigfox/sigfox.py:100-110 | `send(p)` with at most 255 bytes writes exactly `[0x58, len(p)] + p` and ends connected outside configuration mode; with more than 255 bytes it raises in configuration mode with the log unchanged |

## Left out

- GPIO set-up and the reset-line pulse (sigfox.py:32-39, 114-116): hardware output with no logic.
  Only `_reset`'s effect on the believed mode is kept.
- `time.sleep` and the float division `wait/0.1`: these are timing only. The number of polls is an
  integer parameter `limit`, and the default `wait=0.5` gives 5.
- `serial.Serial` construction, its port name, baud rate and timeout, and `close`: this is a
  foreign library. The port is an `Open` or `Close` event in the log plus a scripted oracle of
  answers.
- The oracle does not bound the size of a chunk by the size requested. A real `read(n)` returns at
  most `n` bytes; the model lets the port return any chunk.
- Python's `chr`/`str` typing of what reaches `ser.write`: every written item is a byte value.
  Payload elements are bytes, so the `ValueError` that `chr(p)` would raise for an element outside
  0-255 halfway through `send` is not modelled.
- `read_memory`'s address (sigfox.py:86) reaches `ser.write` as a bare int, not as `chr(address)`.
  The model writes it as the byte with that value. What the serial library does with an int is
  not modelled.
- The drain loop of `_write` (sigfox.py:158) has no bound. It never ends if the port keeps
  reporting bytes waiting. In the model the port's script of counts is finite and reports 0 once
  it is used up. That is the only reason `Drain`, `Device.SigFox.DrainPort` and so `_write` always
  end. The model does not capture a drain that never ends.
- `set_sigfox_mode` and `set_config` (sigfox.py:92-97): these are empty `pass` stubs with no
  effect.
- Response validation (the TODO at sigfox.py:165): it is not implemented in the source. `_cmd`
  drops `_write`'s result, so no public operation returns a reply.
- Timeouts and errors of the serial library itself: the oracle always answers.
