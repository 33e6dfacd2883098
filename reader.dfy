/** The read side of `SigFox._write` (sigfox.py:139-166): a bounded poll window
    followed by a drain loop, over an abstract port that answers from a script. */
module Reader {
  import opened Wire

  /** What the port will answer from now on: successive `inWaiting()` counts and
      successive `read` chunks, in order. Once `counts` is used up the port reports
      0 bytes waiting; once `chunks` is used up a read returns nothing. */
  datatype Incoming = Incoming(counts: seq<nat>, chunks: seq<seq<byte>>)
  {
    /** The answer of the next `inWaiting()`. */
    function Avail(): nat { if counts == [] then 0 else counts[0] }

    /** The port after one `inWaiting()`. */
    function Polled(): Incoming { if counts == [] then this else this.(counts := counts[1..]) }

    /** The answer of the next `read`. */
    function Chunk(): seq<byte> { if chunks == [] then [] else chunks[0] }

    /** The port after one `read`. */
    function Consumed(): Incoming { if chunks == [] then this else this.(chunks := chunks[1..]) }
  }

  /** The answer of the `i`-th `inWaiting()` from now. */
  function CountAt(inc: Incoming, i: nat): nat
  {
    if i < |inc.counts| then inc.counts[i] else 0
  }

  /** The answer of the `i`-th `read` from now. */
  function ChunkAt(inc: Incoming, i: nat): seq<byte>
  {
    if i < |inc.chunks| then inc.chunks[i] else []
  }

  /** A poll moves the counts on by one and leaves the chunks. */
  lemma PolledShift(inc: Incoming)
    ensures forall j: nat :: CountAt(inc.Polled(), j) == CountAt(inc, j + 1)
    ensures inc.Polled().chunks == inc.chunks
  {
  }

  /** A read moves the chunks on by one and leaves the counts. */
  lemma ConsumedShift(inc: Incoming)
    ensures forall j: nat :: ChunkAt(inc.Consumed(), j) == ChunkAt(inc, j + 1)
    ensures inc.Consumed().counts == inc.counts
  {
  }

  /** Outcome of the poll window: the last count seen, the polls made, the port left. */
  datatype Phase = Phase(avail: nat, events: seq<Event>, rest: Incoming)

  /** Outcome of a whole response read: the list of chunks, the events, the port left. */
  datatype Session = Session(result: seq<seq<byte>>, events: seq<Event>, rest: Incoming)

  /** The non-forced wait (sigfox.py:147-156): up to `limit` polls, stopping at the
      first positive count. `limit` stands for the attempt bound `wait/0.1`. */
  function PollWindow(inc: Incoming, limit: nat): Phase
    decreases limit
  {
    if limit == 0 then Phase(0, [], inc)
    else if inc.Avail() > 0 then Phase(inc.Avail(), [InWaiting(inc.Avail())], inc.Polled())
    else
      var p := PollWindow(inc.Polled(), limit - 1);
      p.(events := [InWaiting(0)] + p.events)
  }

  /** The forced wait (sigfox.py:142-144): one poll after the full wait. */
  function ForcedPoll(inc: Incoming): Phase
  {
    Phase(inc.Avail(), [InWaiting(inc.Avail())], inc.Polled())
  }

  /** The drain loop (sigfox.py:158-163), entered with `n` bytes reported waiting.
      It ends because the script of counts is finite and the port reports 0 once it
      is used up; the source's loop has no such bound. */
  function Drain(n: nat, inc: Incoming): Session
    decreases |inc.counts|, n
  {
    if n == 0 then Session([], [], inc)
    else
      var c := inc.Chunk();
      var next := inc.Consumed();
      var s := Drain(next.Avail(), next.Polled());
      Session([c] + s.result, [Read(n, c), InWaiting(next.Avail())] + s.events, s.rest)
  }

  /** The wait of `_write`, forced or not. */
  function Wait(inc: Incoming, limit: nat, force: bool): Phase
  {
    if force then ForcedPoll(inc) else PollWindow(inc, limit)
  }

  /** Everything `_write` does after its `ser.write`, and the list it returns. */
  function Respond(inc: Incoming, limit: nat, force: bool): Session
  {
    var p := Wait(inc, limit, force);
    var s := Drain(p.avail, p.rest);
    Session(s.result, p.events + s.events, s.rest)
  }

  /** The poll window polls at most `limit` times, sees the port's counts in order,
      and stops exactly at the first positive one; with none it uses every attempt. */
  lemma PollWindowFacts(inc: Incoming, limit: nat)
    ensures var p := PollWindow(inc, limit);
      |p.events| <= limit &&
      (forall i :: 0 <= i < |p.events| ==> p.events[i] == InWaiting(CountAt(inc, i))) &&
      (forall i :: 0 <= i < |p.events| - 1 ==> CountAt(inc, i) == 0) &&
      (p.avail > 0 ==> |p.events| > 0 && p.avail == CountAt(inc, |p.events| - 1)) &&
      (p.avail == 0 ==> |p.events| == limit && forall i :: 0 <= i < limit ==> CountAt(inc, i) == 0) &&
      p.rest.chunks == inc.chunks
  {
    PollWindowPolls(inc, limit);
    PollWindowStops(inc, limit);
  }

  /** The poll window makes at most `limit` polls, the i-th reporting the port's i-th
      count, and consumes no chunk. */
  lemma {:induction false} PollWindowPolls(inc: Incoming, limit: nat)
    ensures |PollWindow(inc, limit).events| <= limit
    ensures forall i :: 0 <= i < |PollWindow(inc, limit).events| ==>
      PollWindow(inc, limit).events[i] == InWaiting(CountAt(inc, i))
    ensures PollWindow(inc, limit).rest.chunks == inc.chunks
    decreases limit
  {
    if limit > 0 && inc.Avail() == 0 {
      var q := inc.Polled();
      PollWindowPolls(q, limit - 1);
      PolledShift(inc);
      var p := PollWindow(q, limit - 1);
      var r := PollWindow(inc, limit);
      assert r == p.(events := [InWaiting(0)] + p.events);
      forall i | 0 <= i < |r.events| ensures r.events[i] == InWaiting(CountAt(inc, i)) {
        if i > 0 { assert r.events[i] == p.events[i - 1]; }
      }
    }
  }

  /** The poll window stops at the first positive count and returns it; it returns 0
      only after `limit` polls that all saw 0. */
  lemma {:induction false} PollWindowStops(inc: Incoming, limit: nat)
    ensures forall i :: 0 <= i < |PollWindow(inc, limit).events| - 1 ==> CountAt(inc, i) == 0
    ensures PollWindow(inc, limit).avail > 0 ==>
      |PollWindow(inc, limit).events| > 0 &&
      PollWindow(inc, limit).avail == CountAt(inc, |PollWindow(inc, limit).events| - 1)
    ensures PollWindow(inc, limit).avail == 0 ==>
      |PollWindow(inc, limit).events| == limit && forall i :: 0 <= i < limit ==> CountAt(inc, i) == 0
    decreases limit
  {
    if limit > 0 && inc.Avail() == 0 {
      var q := inc.Polled();
      PollWindowStops(q, limit - 1);
      PolledShift(inc);
      var p := PollWindow(q, limit - 1);
      assert |PollWindow(inc, limit).events| == 1 + |p.events|;
      assert CountAt(inc, 0) == 0;
      forall i | 0 < i < |PollWindow(inc, limit).events| - 1 ensures CountAt(inc, i) == 0 {
        assert CountAt(q, i - 1) == 0;
      }
      if p.avail == 0 {
        forall i | 0 < i < limit ensures CountAt(inc, i) == 0 {
          assert CountAt(q, i - 1) == 0;
        }
      }
    }
  }

  /** After the poll window the port's counts go on where the polls left them. */
  lemma {:induction false} PollWindowRest(inc: Incoming, limit: nat)
    ensures forall j: nat ::
      CountAt(PollWindow(inc, limit).rest, j) == CountAt(inc, |PollWindow(inc, limit).events| + j)
    decreases limit
  {
    var p := PollWindow(inc, limit);
    var q := inc.Polled();
    PolledShift(inc);
    if limit > 0 && inc.Avail() == 0 {
      PollWindowRest(q, limit - 1);
      var p' := PollWindow(q, limit - 1);
      assert |p.events| == |p'.events| + 1;
      assert p.rest == p'.rest;
      forall j: nat ensures CountAt(p.rest, j) == CountAt(inc, |p.events| + j) {
        assert CountAt(p'.rest, j) == CountAt(q, |p'.events| + j);
      }
    }
  }

  /** The drain loop returns the port's chunks in arrival order, one per read, and
      asks each read for exactly the count last reported. */
  lemma {:induction false} DrainFacts(n: nat, inc: Incoming)
    ensures Drain(n, inc).result == [] <==> n == 0
    ensures |Drain(n, inc).events| == 2 * |Drain(n, inc).result|
    ensures forall i :: 0 <= i < |Drain(n, inc).result| ==> Drain(n, inc).result[i] == ChunkAt(inc, i)
    ensures Inbound(Drain(n, inc).events)
    ensures n > 0 ==> Drain(n, inc).events[0] == Read(n, ChunkAt(inc, 0))
    ensures forall i :: 0 < i < |Drain(n, inc).events| && Drain(n, inc).events[i].Read? ==>
      Drain(n, inc).events[i - 1] == InWaiting(Drain(n, inc).events[i].size)
    ensures forall i :: 0 <= i < |Drain(n, inc).events| && Drain(n, inc).events[i].Read? ==>
      Drain(n, inc).events[i].size > 0
    decreases |inc.counts|, n
  {
    if n > 0 {
      var c := inc.Chunk();
      var next := inc.Consumed();
      var m := next.Avail();
      DrainFacts(m, next.Polled());
      var s := Drain(m, next.Polled());
      var ev := [Read(n, c), InWaiting(m)] + s.events;
      assert Drain(n, inc).events == ev;
      assert Drain(n, inc).result == [c] + s.result;
      forall i | 0 <= i < |s.result| ensures ChunkAt(next.Polled(), i) == ChunkAt(inc, i + 1) {
      }
      forall i | 0 <= i < |ev| ensures ev[i].InWaiting? || ev[i].Read? {
        if i >= 2 { assert ev[i] == s.events[i - 2]; }
      }
      forall i | 0 < i < |ev| && ev[i].Read? ensures ev[i - 1] == InWaiting(ev[i].size) {
        assert i >= 2;
        assert ev[i] == s.events[i - 2];
        if i > 2 {
          assert ev[i - 1] == s.events[i - 3];
        } else {
          assert s.events[0] == Read(m, ChunkAt(next.Polled(), 0));
        }
      }
      forall i | 0 <= i < |ev| && ev[i].Read? ensures ev[i].size > 0 {
        if i >= 2 { assert ev[i] == s.events[i - 2]; }
      }
    }
  }

  /** The drain loop alternates reads with polls that report the port's successive
      counts: each read after the first asks for the count just reported, the loop goes
      on while that count is positive and stops at the first 0. */
  lemma DrainPolls(n: nat, inc: Incoming)
    ensures var s := Drain(n, inc);
      |s.events| == 2 * |s.result| &&
      (forall j: nat :: j < |s.result| ==>
        s.events[2 * j] == Read(if j == 0 then n else CountAt(inc, j - 1), ChunkAt(inc, j)) &&
        s.events[2 * j + 1] == InWaiting(CountAt(inc, j))) &&
      (forall j: nat :: j + 1 < |s.result| ==> CountAt(inc, j) > 0) &&
      (s.result != [] ==> CountAt(inc, |s.result| - 1) == 0)
  {
    DrainFacts(n, inc);
    DrainReads(n, inc);
    DrainPollCounts(n, inc);
    DrainContinues(n, inc);
    DrainStops(n, inc);
  }

  /** The `j`-th read of the drain loop asks for `n` first and then for the count the
      previous poll reported, and returns the port's `j`-th chunk. */
  lemma {:induction false} DrainReads(n: nat, inc: Incoming)
    ensures var s := Drain(n, inc);
      |s.events| == 2 * |s.result| &&
      forall j: nat :: j < |s.result| ==>
        s.events[2 * j] == Read(if j == 0 then n else CountAt(inc, j - 1), ChunkAt(inc, j))
    decreases |inc.counts|, n
  {
    DrainFacts(n, inc);
    if n > 0 {
      var next := inc.Consumed();
      var q := next.Polled();
      var m := next.Avail();
      var t := Drain(m, q);
      var s := Drain(n, inc);
      DrainReads(m, q);
      ConsumedShift(inc);
      PolledShift(next);
      assert s.result == [inc.Chunk()] + t.result;
      assert s.events == [Read(n, inc.Chunk()), InWaiting(m)] + t.events;
      forall j: nat | j < |s.result|
        ensures s.events[2 * j] == Read(if j == 0 then n else CountAt(inc, j - 1), ChunkAt(inc, j))
      {
        if j > 0 {
          var i: nat := j - 1;
          assert s.events[2 * j] == t.events[2 * i];
          assert ChunkAt(q, i) == ChunkAt(inc, j);
          if i > 0 { assert CountAt(q, i - 1) == CountAt(inc, j - 1); }
        }
      }
    }
  }

  /** The poll after the `j`-th read of the drain loop reports the port's `j`-th count. */
  lemma {:induction false} DrainPollCounts(n: nat, inc: Incoming)
    ensures var s := Drain(n, inc);
      |s.events| == 2 * |s.result| &&
      forall j: nat :: j < |s.result| ==> s.events[2 * j + 1] == InWaiting(CountAt(inc, j))
    decreases |inc.counts|, n
  {
    DrainFacts(n, inc);
    if n > 0 {
      var next := inc.Consumed();
      var q := next.Polled();
      var m := next.Avail();
      var t := Drain(m, q);
      var s := Drain(n, inc);
      DrainPollCounts(m, q);
      ConsumedShift(inc);
      PolledShift(next);
      assert s.result == [inc.Chunk()] + t.result;
      assert s.events == [Read(n, inc.Chunk()), InWaiting(m)] + t.events;
      forall j: nat | j < |s.result| ensures s.events[2 * j + 1] == InWaiting(CountAt(inc, j)) {
        if j > 0 {
          var i: nat := j - 1;
          assert s.events[2 * j + 1] == t.events[2 * i + 1];
          assert CountAt(q, i) == CountAt(inc, j);
        }
      }
    }
  }

  /** The drain loop reads again only after a positive count. */
  lemma {:induction false} DrainContinues(n: nat, inc: Incoming)
    ensures forall j: nat :: j + 1 < |Drain(n, inc).result| ==> CountAt(inc, j) > 0
    decreases |inc.counts|, n
  {
    if n > 0 {
      var next := inc.Consumed();
      var q := next.Polled();
      var m := next.Avail();
      var t := Drain(m, q);
      DrainContinues(m, q);
      DrainFacts(m, q);
      ConsumedShift(inc);
      PolledShift(next);
      assert |Drain(n, inc).result| == 1 + |t.result|;
      forall j: nat | j + 1 < |Drain(n, inc).result| ensures CountAt(inc, j) > 0 {
        if j > 0 { assert CountAt(q, j - 1) > 0; }
      }
    }
  }

  /** The drain loop stops at the first 0 the port reports. */
  lemma {:induction false} DrainStops(n: nat, inc: Incoming)
    ensures Drain(n, inc).result != [] ==> CountAt(inc, |Drain(n, inc).result| - 1) == 0
    decreases |inc.counts|, n
  {
    if n > 0 {
      var next := inc.Consumed();
      var q := next.Polled();
      var m := next.Avail();
      var t := Drain(m, q);
      DrainStops(m, q);
      DrainFacts(m, q);
      ConsumedShift(inc);
      PolledShift(next);
      assert |Drain(n, inc).result| == 1 + |t.result|;
      if t.result != [] {
        assert CountAt(q, |t.result| - 1) == 0;
      }
    }
  }

  /** One round of the drain loop moves one chunk and its two events from what is
      still to be drained to what has been drained. */
  lemma DrainRound(total: Session, got: seq<seq<byte>>, seen: seq<Event>, n: nat, inc: Incoming)
    requires n > 0
    requires total.result == got + Drain(n, inc).result
    requires total.events == seen + Drain(n, inc).events
    requires total.rest == Drain(n, inc).rest
    ensures var c := inc.Chunk();
      var m := inc.Consumed().Avail();
      var after := Drain(m, inc.Consumed().Polled());
      total.result == (got + [c]) + after.result &&
      total.events == (seen + [Read(n, c), InWaiting(m)]) + after.events &&
      total.rest == after.rest
  {
    var c := inc.Chunk();
    var m := inc.Consumed().Avail();
    var after := Drain(m, inc.Consumed().Polled());
    assert got + ([c] + after.result) == (got + [c]) + after.result;
    assert seen + ([Read(n, c), InWaiting(m)] + after.events) ==
      (seen + [Read(n, c), InWaiting(m)]) + after.events;
  }

  /** The wait only polls, leaves the chunks alone, ends on the count it returns,
      and returns 0 exactly when no count in its window was positive. */
  lemma WaitFacts(inc: Incoming, limit: nat, force: bool)
    ensures var p := Wait(inc, limit, force);
      (forall i :: 0 <= i < |p.events| ==> p.events[i].InWaiting?) &&
      Inbound(p.events) &&
      p.rest.chunks == inc.chunks &&
      (p.avail > 0 ==> |p.events| > 0 && p.events[|p.events| - 1] == InWaiting(p.avail)) &&
      (!force ==> (p.avail == 0 <==> forall i :: 0 <= i < limit ==> CountAt(inc, i) == 0)) &&
      (force ==> (p.avail == 0 <==> CountAt(inc, 0) == 0))
  {
    if !force {
      var p := PollWindow(inc, limit);
      PollWindowFacts(inc, limit);
      assert Inbound(p.events) by {
        forall i | 0 <= i < |p.events| ensures p.events[i].InWaiting? || p.events[i].Read? {
          assert p.events[i] == InWaiting(CountAt(inc, i));
        }
      }
      if p.avail > 0 {
        assert CountAt(inc, |p.events| - 1) > 0;
      }
    }
  }

  /** After the wait the port's counts go on where its polls left them, and its
      chunks are untouched. */
  lemma WaitRest(inc: Incoming, limit: nat, force: bool)
    ensures forall j: nat ::
      CountAt(Wait(inc, limit, force).rest, j) == CountAt(inc, |Wait(inc, limit, force).events| + j) &&
      ChunkAt(Wait(inc, limit, force).rest, j) == ChunkAt(inc, j)
  {
    if !force {
      PollWindowRest(inc, limit);
      PollWindowFacts(inc, limit);
    } else {
      PolledShift(inc);
    }
  }

  /** `_write` returns the port's chunks in arrival order, and only reads. */
  lemma RespondChunks(inc: Incoming, limit: nat, force: bool)
    ensures Inbound(Respond(inc, limit, force).events)
    ensures forall i :: 0 <= i < |Respond(inc, limit, force).result| ==>
      Respond(inc, limit, force).result[i] == ChunkAt(inc, i)
  {
    var p := Wait(inc, limit, force);
    WaitFacts(inc, limit, force);
    var d := Drain(p.avail, p.rest);
    DrainFacts(p.avail, p.rest);
    assert Respond(inc, limit, force) == Session(d.result, p.events + d.events, d.rest);
    forall i | 0 <= i < |d.result| ensures d.result[i] == ChunkAt(inc, i) {
      assert d.result[i] == ChunkAt(p.rest, i);
    }
    InboundAppend(p.events, d.events);
  }

  /** Every read of `_write` asks for exactly the positive count reported by the
      poll just before it. */
  lemma RespondReadSizes(inc: Incoming, limit: nat, force: bool)
    ensures forall i :: 0 <= i < |Respond(inc, limit, force).events| && Respond(inc, limit, force).events[i].Read? ==>
      0 < i && Respond(inc, limit, force).events[i - 1] == InWaiting(Respond(inc, limit, force).events[i].size) &&
      Respond(inc, limit, force).events[i].size > 0
  {
    var p := Wait(inc, limit, force);
    WaitFacts(inc, limit, force);
    var d := Drain(p.avail, p.rest);
    DrainFacts(p.avail, p.rest);
    var ev := p.events + d.events;
    assert Respond(inc, limit, force).events == ev;
    forall i | 0 <= i < |ev| && ev[i].Read?
      ensures 0 < i && ev[i - 1] == InWaiting(ev[i].size) && ev[i].size > 0
    {
      assert i >= |p.events|;
      var j := i - |p.events|;
      assert ev[i] == d.events[j];
      if j > 0 {
        assert ev[i - 1] == d.events[j - 1];
      } else {
        assert p.avail > 0;
        assert ev[i - 1] == p.events[|p.events| - 1];
      }
    }
  }

  /** `_write` returns an empty list exactly when no positive count turned up in its
      wait. */
  lemma RespondEmpty(inc: Incoming, limit: nat, force: bool)
    ensures !force ==>
      (Respond(inc, limit, force).result == [] <==> forall i :: 0 <= i < limit ==> CountAt(inc, i) == 0)
    ensures force ==> (Respond(inc, limit, force).result == [] <==> CountAt(inc, 0) == 0)
  {
    var p := Wait(inc, limit, force);
    WaitFacts(inc, limit, force);
    DrainFacts(p.avail, p.rest);
    assert Respond(inc, limit, force).result == Drain(p.avail, p.rest).result;
  }

  /** After its wait, `_write` alternates reads with polls of the port's next counts:
      the reply holds one chunk per read, each read after the first asks for the count
      just reported, and the reply ends at the first 0 after the wait. */
  lemma RespondDrain(inc: Incoming, limit: nat, force: bool)
    ensures var p := Wait(inc, limit, force);
      var r := Respond(inc, limit, force);
      var k := |p.events|;
      |r.events| == k + 2 * |r.result| &&
      r.events[..k] == p.events &&
      (forall j: nat :: j < |r.result| ==>
        r.result[j] == ChunkAt(inc, j) &&
        r.events[k + 2 * j] == Read(if j == 0 then p.avail else CountAt(inc, k + j - 1), r.result[j]) &&
        r.events[k + 2 * j + 1] == InWaiting(CountAt(inc, k + j))) &&
      (forall i: nat :: k <= i < k + |r.result| - 1 ==> CountAt(inc, i) > 0) &&
      (r.result != [] ==> CountAt(inc, k + |r.result| - 1) == 0)
  {
    var p := Wait(inc, limit, force);
    WaitRest(inc, limit, force);
    AfterWait(|p.events|, p.avail, inc, p.rest, p.events, Respond(inc, limit, force));
  }

  /** The drain rounds seen from the start of the reply: indices shift by the polls
      of the wait, counts by as many. */
  lemma AfterWait(k: nat, n: nat, inc: Incoming, rest: Incoming, polls: seq<Event>, r: Session)
    requires |polls| == k
    requires forall j: nat :: CountAt(rest, j) == CountAt(inc, k + j) && ChunkAt(rest, j) == ChunkAt(inc, j)
    requires r == Session(Drain(n, rest).result, polls + Drain(n, rest).events, Drain(n, rest).rest)
    ensures
      |r.events| == k + 2 * |r.result| &&
      r.events[..k] == polls &&
      (forall j: nat :: j < |r.result| ==>
        r.result[j] == ChunkAt(inc, j) &&
        r.events[k + 2 * j] == Read(if j == 0 then n else CountAt(inc, k + j - 1), r.result[j]) &&
        r.events[k + 2 * j + 1] == InWaiting(CountAt(inc, k + j))) &&
      (forall i: nat :: k <= i < k + |r.result| - 1 ==> CountAt(inc, i) > 0) &&
      (r.result != [] ==> CountAt(inc, k + |r.result| - 1) == 0)
  {
    DrainFacts(n, rest);
    assert r.events[..k] == polls;
    ShiftedRounds(k, n, inc, rest, polls, r);
    ShiftedStop(k, n, inc, rest, polls, r);
  }

  /** The `j`-th drain round, seen from the start of the reply. */
  lemma ShiftedRounds(k: nat, n: nat, inc: Incoming, rest: Incoming, polls: seq<Event>, r: Session)
    requires |polls| == k
    requires forall j: nat :: CountAt(rest, j) == CountAt(inc, k + j) && ChunkAt(rest, j) == ChunkAt(inc, j)
    requires r == Session(Drain(n, rest).result, polls + Drain(n, rest).events, Drain(n, rest).rest)
    ensures |r.events| == k + 2 * |r.result|
    ensures forall j: nat :: j < |r.result| ==>
      r.result[j] == ChunkAt(inc, j) &&
      r.events[k + 2 * j] == Read(if j == 0 then n else CountAt(inc, k + j - 1), r.result[j]) &&
      r.events[k + 2 * j + 1] == InWaiting(CountAt(inc, k + j))
  {
    var d := Drain(n, rest);
    DrainFacts(n, rest);
    DrainReads(n, rest);
    DrainPollCounts(n, rest);
    forall j: nat | j < |d.result|
      ensures d.result[j] == ChunkAt(inc, j)
      ensures r.events[k + 2 * j] == Read(if j == 0 then n else CountAt(inc, k + j - 1), d.result[j])
      ensures r.events[k + 2 * j + 1] == InWaiting(CountAt(inc, k + j))
    {
      assert r.events[k + 2 * j] == d.events[2 * j];
      assert r.events[k + 2 * j + 1] == d.events[2 * j + 1];
      assert d.result[j] == ChunkAt(rest, j) == ChunkAt(inc, j);
      assert CountAt(rest, j) == CountAt(inc, k + j);
      if j > 0 {
        var i: nat := j - 1;
        assert CountAt(rest, i) == CountAt(inc, k + i);
      }
    }
  }

  /** The drain loop after the wait goes on over positive counts and stops at the
      first 0, seen from the start of the reply. */
  lemma ShiftedStop(k: nat, n: nat, inc: Incoming, rest: Incoming, polls: seq<Event>, r: Session)
    requires forall j: nat :: CountAt(rest, j) == CountAt(inc, k + j)
    requires r.result == Drain(n, rest).result
    ensures forall i: nat :: k <= i < k + |r.result| - 1 ==> CountAt(inc, i) > 0
    ensures r.result != [] ==> CountAt(inc, k + |r.result| - 1) == 0
  {
    DrainContinues(n, rest);
    DrainStops(n, rest);
    forall i: nat | k <= i < k + |r.result| - 1 ensures CountAt(inc, i) > 0 {
      var j: nat := i - k;
      assert j + 1 < |r.result|;
      assert CountAt(rest, j) == CountAt(inc, i);
    }
    if r.result != [] {
      var j: nat := |r.result| - 1;
      assert CountAt(rest, j) == CountAt(inc, k + j);
    }
  }
}
