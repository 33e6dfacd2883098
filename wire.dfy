/** The serial link as the driver sees it: one-byte values, the modem's opcodes,
    and the log of every interaction the driver has with the port. */
module Wire {

  /** One octet, as written by `ser.write(chr(..))` or returned by `ser.read`. */
  type byte = x: int | 0 <= x < 0x100

  // Opcodes the driver class declares (sigfox.py:10-24).
  const READ_ID: byte := 0x39
  const CONFIGURE_ID: byte := 0x41
  const SIGFOX_MODE: byte := 0x46
  const MEMORY_CONFIGURATION: byte := 0x4D
  const QUALITY_INDICATOR: byte := 0x51
  const SIGNAL_STRENGTH: byte := 0x53
  const TEMPERATURE_MONITORING: byte := 0x55
  const BATTERY_MONITORING: byte := 0x56
  const MEMORY_READ_ONE_BYTE: byte := 0x59
  const SLEEP_MODE: byte := 0x5A
  const LIST_CONFIGURATION: byte := 0x30
  const EXIT_CONFIGURATION: byte := 0xFF

  // The two mode-transition bytes (sigfox.py:23-24).
  const EXIT_CONF_MODE: byte := 0x58
  const ENTER_CONF_MODE: byte := 0x00

  /** One interaction with the serial port, in the order it happens. */
  datatype Event =
    | Open                               // a new `serial.Serial` is opened
    | Close                              // `ser.close()`
    | Out(b: byte)                       // `ser.write` of one byte
    | InWaiting(count: nat)              // `ser.inWaiting()` answered `count`
    | Read(size: nat, chunk: seq<byte>)  // `ser.read(size)` returned `chunk`

  /** The bytes put on the wire, in order. */
  function Written(t: seq<Event>): (w: seq<byte>)
    ensures |w| <= |t|
  {
    if t == [] then [] else (if t[0].Out? then [t[0].b] else []) + Written(t[1..])
  }

  /** How many times the port was opened. */
  function Opens(t: seq<Event>): (n: nat)
    ensures n <= |t|
  {
    if t == [] then 0 else (if t[0] == Open then 1 else 0) + Opens(t[1..])
  }

  /** Splitting a log splits what it wrote and how often it opened the port. */
  lemma WrittenSplit(t: seq<Event>, k: nat)
    requires k <= |t|
    ensures Written(t) == Written(t[..k]) + Written(t[k..])
    ensures Opens(t) == Opens(t[..k]) + Opens(t[k..])
  {
    assert t == t[..k] + t[k..];
    WrittenAppend(t[..k], t[k..]);
    OpensAppend(t[..k], t[k..]);
  }

  /** What a log wrote and opened after a prefix of it. */
  lemma SuffixEffects(t0: seq<Event>, t: seq<Event>, w: seq<byte>, n: nat)
    requires t0 <= t
    requires Written(t) == Written(t0) + w && Opens(t) == Opens(t0) + n
    ensures t[..|t0|] == t0
    ensures Written(t[|t0|..]) == w && Opens(t[|t0|..]) == n
  {
    WrittenSplit(t, |t0|);
    assert t[..|t0|] == t0;
    var v := Written(t[|t0|..]);
    assert v == (Written(t0) + v)[|Written(t0)|..];
    assert w == (Written(t0) + w)[|Written(t0)|..];
  }

  /** The events that only read from the port. */
  predicate Inbound(t: seq<Event>)
  {
    forall i :: 0 <= i < |t| ==> t[i].InWaiting? || t[i].Read?
  }

  lemma {:induction false} WrittenAppend(a: seq<Event>, b: seq<Event>)
    ensures Written(a + b) == Written(a) + Written(b)
  {
    if a == [] {
      assert a + b == b;
    } else {
      var head := if a[0].Out? then [a[0].b] else [];
      assert (a + b)[0] == a[0];
      assert (a + b)[1..] == a[1..] + b;
      assert Written(a + b) == head + Written(a[1..] + b);
      WrittenAppend(a[1..], b);
      assert Written(a) == head + Written(a[1..]);
    }
  }

  lemma {:induction false} OpensAppend(a: seq<Event>, b: seq<Event>)
    ensures Opens(a + b) == Opens(a) + Opens(b)
  {
    if a == [] {
      assert a + b == b;
    } else {
      assert (a + b)[1..] == a[1..] + b;
      OpensAppend(a[1..], b);
    }
  }

  /** Reading from the port neither writes a byte nor opens it. */
  lemma {:induction false} InboundIsSilent(t: seq<Event>)
    requires Inbound(t)
    ensures Written(t) == [] && Opens(t) == 0
  {
    if t != [] {
      assert Inbound(t[1..]) by {
        forall i | 0 <= i < |t[1..]| ensures t[1..][i].InWaiting? || t[1..][i].Read? {
          assert t[1..][i] == t[i + 1];
        }
      }
      InboundIsSilent(t[1..]);
    }
  }

  lemma InboundAppend(a: seq<Event>, b: seq<Event>)
    requires Inbound(a) && Inbound(b)
    ensures Inbound(a + b)
  {
    forall i | 0 <= i < |a + b| ensures (a + b)[i].InWaiting? || (a + b)[i].Read? {
      if i < |a| { assert (a + b)[i] == a[i]; } else { assert (a + b)[i] == b[i - |a|]; }
    }
  }

  /** A single written byte and the reads that follow it. */
  lemma OutThenInbound(prefix: seq<Event>, x: byte, rx: seq<Event>)
    requires Inbound(rx)
    ensures Written(prefix + [Out(x)] + rx) == Written(prefix) + [x]
    ensures Opens(prefix + [Out(x)] + rx) == Opens(prefix)
  {
    InboundIsSilent(rx);
    WrittenAppend(prefix + [Out(x)], rx);
    WrittenAppend(prefix, [Out(x)]);
    OpensAppend(prefix + [Out(x)], rx);
    OpensAppend(prefix, [Out(x)]);
    assert Written([Out(x)]) == [x] by { assert [Out(x)][1..] == []; }
    assert Opens([Out(x)]) == 0 by { assert [Out(x)][1..] == []; }
  }
}
