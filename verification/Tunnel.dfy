/** From an accepted connection to the end of its relay: src/main.rs, with the fallback loop
    of src/router.rs. */
module Tunnel {
  import opened Wrappers
  import opened Bytes
  import opened Streams
  import opened Targets
  import opened Proxy
  import opened Routing
  import Http
  import TlsReader
  import opened Tls

  // ---------------------------------------------------------------- the relay

  datatype Failure = ReadFailed | WriteFailed | ShutdownFailed

  datatype RelayError = IdleTimeout | Failing(failure: Failure)

  /** A completed read-and-write of the relay: when its bytes were ready, and when its write
      completed. */
  datatype Transfer = Transfer(upstream: bool, bytes: seq<byte>, ready: nat, at: nat)

  /** The bytes the completed transfers carried one way, in order. */
  ghost function Carried(log: seq<Transfer>, upstream: bool): seq<byte> {
    if log == [] then []
    else
      var before, last := Carried(log[..|log| - 1], upstream), log[|log| - 1];
      if last.upstream == upstream then before + last.bytes else before
  }

  /** How many transfers went one way. */
  ghost function Count(log: seq<Transfer>, upstream: bool): nat {
    if log == [] then 0
    else Count(log[..|log| - 1], upstream) + if log[|log| - 1].upstream == upstream then 1 else 0
  }

  ghost function Record(log: seq<Transfer>, t: Transfer): (r: seq<Transfer>)
    ensures Carried(r, t.upstream) == Carried(log, t.upstream) + t.bytes
    ensures Carried(r, !t.upstream) == Carried(log, !t.upstream)
    ensures Count(r, t.upstream) == Count(log, t.upstream) + 1 && Count(r, !t.upstream) == Count(log, !t.upstream)
    ensures |r| == |log| + 1 && r[|log|] == t && forall i :: 0 <= i < |log| ==> r[i] == log[i]
  {
    assert (log + [t])[..|log|] == log;
    log + [t]
  }

  // ---------------------------------------------------------------- time

  /** When the successive reads from the client and from the tunnel become ready, `None` and all
      later ones being never, and how late the relay may notice. */
  datatype Timing = Timing(client: seq<Option<nat>>, tunnel: seq<Option<nat>>, lag: nat)

  function ReadyAt(when: seq<Option<nat>>, k: nat): Option<nat> {
    if k < |when| then when[k] else None
  }

  predicate Due(ready: Option<nat>, now: nat) {
    ready.Some? && ready.value <= now
  }

  /** Both peers are silent from the start. */
  predicate Silent(timing: Timing) {
    ReadyAt(timing.client, 0).None? && ReadyAt(timing.tunnel, 0).None?
  }

  /** Not ready, as far as the relay could notice, before the deadline. */
  predicate NotInTime(ready: Option<nat>, deadline: nat, lag: nat) {
    ready.None? || ready.value + lag >= deadline
  }

  /** The clock after an arbitrary wait. */
  method Later(now: nat) returns (later: nat)
    ensures later >= now
  {
    later :| later >= now;
  }

  /** `later` is at most the lag past each of the instants that are still to come. */
  predicate Woken(now: nat, deadline: nat, a: Option<nat>, b: Option<nat>, lag: nat, later: nat) {
    && now <= later
    && (later == now
        || (later <= deadline + lag && (a.Some? ==> later <= a.value + lag) && (b.Some? ==> later <= b.value + lag)))
  }

  /** Waits until some branch is ready: not longer than the lag past the first that is. */
  method Wake(now: nat, deadline: nat, a: Option<nat>, b: Option<nat>, lag: nat) returns (later: nat)
    ensures later >= deadline || Due(a, later) || Due(b, later)
    ensures Woken(now, deadline, a, b, lag, later)
  {
    var first := deadline;
    if a.Some? && a.value < first {
      first := a.value;
    }
    if b.Some? && b.value < first {
      first := b.value;
    }
    if first <= now {
      return now;
    }
    later :| first <= later <= first + lag;
  }

  /** The end of the last transfer, or the start. */
  ghost function LastAt(log: seq<Transfer>, start: nat): nat {
    if log == [] then start else log[|log| - 1].at
  }

  /** Every transfer was ready within the timeout, and the lag, of the one before. */
  ghost predicate Prompt(log: seq<Transfer>, start: nat, bound: nat) {
    forall i :: 0 <= i < |log| ==> log[i].ready <= LastAt(log[..i], start) + bound
  }

  ghost predicate Timely(log: seq<Transfer>, start: nat, idleTimeout: nat, lag: nat, now: nat, deadline: nat) {
    && deadline == LastAt(log, start) + idleTimeout && start + idleTimeout <= deadline && now <= deadline + lag
    && start <= now && LastAt(log, start) <= now
    && (forall i :: 0 <= i < |log| ==> log[i].at + idleTimeout <= deadline)
    && Prompt(log, start, idleTimeout + lag)
  }

  lemma TimelyWaits(log: seq<Transfer>, start: nat, idleTimeout: nat, lag: nat, now: nat, deadline: nat, later: nat)
    requires Timely(log, start, idleTimeout, lag, now, deadline)
    requires later == now || now <= later <= deadline + lag
    ensures Timely(log, start, idleTimeout, lag, later, deadline)
  {
  }

  lemma TimelyMoves(log: seq<Transfer>, start: nat, idleTimeout: nat, lag: nat, now: nat, deadline: nat, t: Transfer)
    requires Timely(log, start, idleTimeout, lag, now, deadline) && t.ready <= now <= t.at
    ensures Timely(Record(log, t), start, idleTimeout, lag, t.at, t.at + idleTimeout)
  {
    var r := Record(log, t);
    forall i | 0 <= i < |r|
      ensures r[i].ready <= LastAt(r[..i], start) + (idleTimeout + lag)
    {
      assert i <= |log|;
      assert r[..i] == log[..i];
      assert log[..|log|] == log;
    }
  }

  /** What one branch of the `select!` did. */
  datatype Step = Moved(bytes: seq<byte>) | Ended | Aborted(failure: Failure)

  /** The branch that reads the client: forward a chunk, or pass its end on. */
  method FromClient(a: Stream, b: Stream) returns (s: Step)
    requires a != b && !b.closed
    modifies a`source, b`written, b`closed
    ensures s.Moved? ==>
      && 0 < |s.bytes| <= 16384 && s.bytes + a.source.rest == old(a.source.rest)
      && b.written == old(b.written) + s.bytes && !b.closed
    ensures s.Ended? ==> old(a.source.rest) == [] == a.source.rest && b.closed && b.written == old(b.written)
    ensures s.Aborted? ==>
      && old(b.written) <= b.written <= old(b.written + a.source.rest)
      && (b.closed ==> b.written == old(b.written + a.source.rest))
    ensures old(a.Reliable() && b.Reliable()) ==> a.Reliable() && b.Reliable() && !s.Aborted?
  {
    var n := a.Read(16 * 1024);
    match n {
      case Failed =>
        s := Aborted(ReadFailed);
      case Eof =>
        var shut := b.Shutdown();
        s := if shut then Ended else Aborted(ShutdownFailed);
      case Data(bytes) =>
        var sent := b.WriteAll(bytes);
        s := if sent then Moved(bytes) else Aborted(WriteFailed);
    }
  }

  /** The branch that reads the tunnel. */
  method FromTunnel(b: PrefixedStream, a: Stream) returns (s: Step)
    requires b.Valid() && a != b.stream && !a.closed
    modifies b, b.stream`source, a`written, a`closed
    ensures b.Valid()
    ensures s.Moved? ==>
      && 0 < |s.bytes| <= 16384 && s.bytes + b.Remaining() == old(b.Remaining())
      && a.written == old(a.written) + s.bytes && !a.closed
    ensures s.Ended? ==> old(b.Remaining()) == [] == b.Remaining() && a.closed && a.written == old(a.written)
    ensures s.Aborted? ==>
      && old(a.written) <= a.written <= old(a.written + b.Remaining())
      && (a.closed ==> a.written == old(a.written + b.Remaining()))
    ensures old(a.Reliable() && b.stream.Reliable()) ==> a.Reliable() && b.stream.Reliable() && !s.Aborted?
  {
    var n := b.Read(16 * 1024);
    match n {
      case Failed =>
        s := Aborted(ReadFailed);
      case Eof =>
        var shut := a.Shutdown();
        s := if shut then Ended else Aborted(ShutdownFailed);
      case Data(bytes) =>
        var sent := a.WriteAll(bytes);
        s := if sent then Moved(bytes) else Aborted(WriteFailed);
    }
  }

  /** The side one direction writes to: what was written to it, what is not yet read for it,
      whether it was shut down, and how many bytes were counted. */
  datatype Side = Side(written: seq<byte>, rest: seq<byte>, closed: bool, count: nat)

  /** One direction of the relay: `all` bytes are to go to a side that had `base` written;
      what the log carried is there, what is not yet read is `rest`, and the side is shut down
      only once nothing is left. */
  ghost predicate Flowing(log: seq<Transfer>, upstream: bool, base: seq<byte>, all: seq<byte>, side: Side) {
    var moved := Carried(log, upstream);
    && side.written == base + moved && moved + side.rest == all && side.count == |moved|
    && (side.closed ==> side.rest == [])
  }

  lemma FlowStarts(upstream: bool, base: seq<byte>, all: seq<byte>)
    ensures Flowing([], upstream, base, all, Side(base, all, false, 0))
  {
    assert base + [] == base && [] + all == all;
  }

  lemma FlowEnds(log: seq<Transfer>, upstream: bool, base: seq<byte>, all: seq<byte>, side: Side)
    requires Flowing(log, upstream, base, all, side) && side.rest == []
    ensures Flowing(log, upstream, base, all, side.(closed := true))
  {
  }

  lemma FlowMoves(log: seq<Transfer>, t: Transfer, base: seq<byte>, all: seq<byte>, side: Side, rest: seq<byte>,
                  otherBase: seq<byte>, otherAll: seq<byte>, other: Side)
    requires Flowing(log, t.upstream, base, all, side) && t.bytes != [] && t.bytes + rest == side.rest
    requires Flowing(log, !t.upstream, otherBase, otherAll, other)
    ensures Flowing(Record(log, t), t.upstream, base, all,
                    Side(side.written + t.bytes, rest, false, side.count + |t.bytes|))
    ensures Flowing(Record(log, t), !t.upstream, otherBase, otherAll, other)
    ensures |rest| < |side.rest|
  {
    assert |t.bytes + rest| == |t.bytes| + |rest|;
  }

  lemma FlowBounds(log: seq<Transfer>, upstream: bool, base: seq<byte>, all: seq<byte>, side: Side)
    requires Flowing(log, upstream, base, all, side)
    ensures base + Carried(log, upstream) == side.written <= base + all
    ensures side.written + side.rest == base + all
    ensures side.closed ==> side.written == base + all && side.count == |all|
  {
    assert base + Carried(log, upstream) + side.rest == base + (Carried(log, upstream) + side.rest);
  }

  /** When the deadline has passed, no direction that is open had a read ready in time. */
  ghost predicate Fair(now: nat, deadline: nat, idleTimeout: nat, a: Option<nat>, b: Option<nat>, lag: nat) {
    idleTimeout > 0 && now >= deadline ==> NotInTime(a, deadline, lag) && NotInTime(b, deadline, lag)
  }

  lemma FairWake(now: nat, deadline: nat, idleTimeout: nat, a: Option<nat>, b: Option<nat>, lag: nat, later: nat)
    requires Fair(now, deadline, idleTimeout, a, b, lag) && now <= later
    requires later == now || ((a.Some? ==> later <= a.value + lag) && (b.Some? ==> later <= b.value + lag))
    ensures Fair(later, deadline, idleTimeout, a, b, lag)
  {
  }

  /** What the relay says about time: it ends at most the timeout, and the lag, after the last
      transfer; it ends idle only when the timeout has passed since every transfer, and no open
      direction had a read ready in time. */
  ghost predicate Punctual(r: Result<(nat, nat), RelayError>, log: seq<Transfer>, timing: Timing, idleTimeout: nat,
                           start: nat, now: nat, aDone: bool, bDone: bool)
  {
    var deadline := LastAt(log, start) + idleTimeout;
    && now <= deadline + timing.lag && Prompt(log, start, idleTimeout + timing.lag)
    && (r == Err(IdleTimeout) ==>
          && start + idleTimeout <= now
          && (forall i :: 0 <= i < |log| ==> log[i].at + idleTimeout <= now)
          && (idleTimeout > 0 && !aDone ==> NotInTime(ReadyAt(timing.client, Count(log, true)), deadline, timing.lag))
          && (idleTimeout > 0 && !bDone ==> NotInTime(ReadyAt(timing.tunnel, Count(log, false)), deadline, timing.lag)))
    && (Silent(timing) ==> r == Err(IdleTimeout) && log == [])
  }

  /** The next read of a direction: never, once it has ended. */
  function Next(when: seq<Option<nat>>, k: nat, done: bool): Option<nat> {
    if done then None else ReadyAt(when, k)
  }

  /** What the loop knows about time: the deadline counts from the last transfer, and whatever
      is still open was not ready in time if it has passed. */
  ghost predicate Clocked(log: seq<Transfer>, timing: Timing, idleTimeout: nat, start: nat, now: nat, deadline: nat,
                          fromA: nat, fromB: nat, aDone: bool, bDone: bool)
  {
    && Timely(log, start, idleTimeout, timing.lag, now, deadline)
    && fromA == Count(log, true) && fromB == Count(log, false)
    && Fair(now, deadline, idleTimeout, Next(timing.client, fromA, aDone), Next(timing.tunnel, fromB, bDone),
            timing.lag)
    && (Silent(timing) ==> log == [] && !aDone && !bDone)
  }

  lemma ClockStarts(timing: Timing, idleTimeout: nat, start: nat)
    ensures Clocked([], timing, idleTimeout, start, start, start + idleTimeout, 0, 0, false, false)
  {
  }

  lemma ClockWakes(log: seq<Transfer>, timing: Timing, idleTimeout: nat, start: nat, now: nat, deadline: nat,
                   fromA: nat, fromB: nat, aDone: bool, bDone: bool, later: nat)
    requires Clocked(log, timing, idleTimeout, start, now, deadline, fromA, fromB, aDone, bDone)
    requires Woken(now, deadline, Next(timing.client, fromA, aDone), Next(timing.tunnel, fromB, bDone), timing.lag,
                   later)
    ensures Clocked(log, timing, idleTimeout, start, later, deadline, fromA, fromB, aDone, bDone)
  {
    TimelyWaits(log, start, idleTimeout, timing.lag, now, deadline, later);
    FairWake(now, deadline, idleTimeout, Next(timing.client, fromA, aDone), Next(timing.tunnel, fromB, bDone),
             timing.lag, later);
  }

  /** A direction ended: its read was ready, so the peers are not silent. */
  lemma ClockEnds(log: seq<Transfer>, timing: Timing, idleTimeout: nat, start: nat, now: nat, deadline: nat,
                  fromA: nat, fromB: nat, aDone: bool, bDone: bool, upstream: bool)
    requires Clocked(log, timing, idleTimeout, start, now, deadline, fromA, fromB, aDone, bDone)
    requires Due(if upstream then Next(timing.client, fromA, aDone) else Next(timing.tunnel, fromB, bDone), now)
    ensures Clocked(log, timing, idleTimeout, start, now, deadline, fromA, fromB, aDone || upstream, bDone || !upstream)
  {
    hide Timely;
  }

  lemma ClockMoves(log: seq<Transfer>, timing: Timing, idleTimeout: nat, start: nat, now: nat, deadline: nat,
                   fromA: nat, fromB: nat, aDone: bool, bDone: bool, t: Transfer)
    requires Clocked(log, timing, idleTimeout, start, now, deadline, fromA, fromB, aDone, bDone)
    requires t.ready <= now <= t.at
    requires if t.upstream then Next(timing.client, fromA, aDone) == Some(t.ready)
             else Next(timing.tunnel, fromB, bDone) == Some(t.ready)
    ensures Clocked(Record(log, t), timing, idleTimeout, start, t.at, t.at + idleTimeout,
                    if t.upstream then fromA + 1 else fromA, if t.upstream then fromB else fromB + 1, aDone, bDone)
  {
    TimelyMoves(log, start, idleTimeout, timing.lag, now, deadline, t);
    hide Timely;
  }

  /** An end without idling: some direction was ready, so the peers were not silent. */
  lemma PunctualEnd(r: Result<(nat, nat), RelayError>, log: seq<Transfer>, timing: Timing, idleTimeout: nat,
                    start: nat, now: nat, deadline: nat, fromA: nat, fromB: nat, aDone: bool, bDone: bool,
                    x: bool, y: bool)
    requires Clocked(log, timing, idleTimeout, start, now, deadline, fromA, fromB, aDone, bDone)
    requires r != Err(IdleTimeout)
    requires
      || (aDone && bDone)
      || Due(Next(timing.client, fromA, aDone), now)
      || Due(Next(timing.tunnel, fromB, bDone), now)
    ensures Punctual(r, log, timing, idleTimeout, start, now, x, y)
  {
  }

  lemma PunctualTimeout(log: seq<Transfer>, timing: Timing, idleTimeout: nat, start: nat, now: nat, deadline: nat,
                        fromA: nat, fromB: nat, aDone: bool, bDone: bool)
    requires Clocked(log, timing, idleTimeout, start, now, deadline, fromA, fromB, aDone, bDone) && now >= deadline
    ensures Punctual(Err(IdleTimeout), log, timing, idleTimeout, start, now, aDone, bDone)
  {
  }

  /** Both directions of the relay between a client and its tunnel. */
  ghost predicate Flows(log: seq<Transfer>, a: Stream, b: PrefixedStream, w: seq<byte>, up: seq<byte>, v: seq<byte>,
                        down: seq<byte>, aToB: nat, bToA: nat)
    requires b.Valid()
    reads a, b, b.stream
  {
    && Flowing(log, true, w, up, Side(b.stream.written, a.source.rest, b.stream.closed, aToB))
    && Flowing(log, false, v, down, Side(a.written, b.Remaining(), a.closed, bToA))
  }

  /** What holds of both sides wherever the relay stops after these transfers. */
  ghost predicate Delivered(log: seq<Transfer>, a: Stream, b: PrefixedStream, w: seq<byte>, up: seq<byte>, v: seq<byte>,
                            down: seq<byte>)
    reads a, b.stream
  {
    && w + Carried(log, true) <= b.stream.written <= w + up && (b.stream.closed ==> b.stream.written == w + up)
    && v + Carried(log, false) <= a.written <= v + down && (a.closed ==> a.written == v + down)
  }

  lemma FlowsStart(a: Stream, b: PrefixedStream)
    requires b.Valid() && !a.closed && !b.stream.closed
    ensures Flows([], a, b, b.stream.written, a.source.rest, a.written, b.Remaining(), 0, 0)
  {
    FlowStarts(true, b.stream.written, a.source.rest);
    FlowStarts(false, a.written, b.Remaining());
  }

  lemma FlowsDeliver(log: seq<Transfer>, a: Stream, b: PrefixedStream, w: seq<byte>, up: seq<byte>, v: seq<byte>,
                     down: seq<byte>, aToB: nat, bToA: nat)
    requires b.Valid() && Flows(log, a, b, w, up, v, down, aToB, bToA)
    ensures Delivered(log, a, b, w, up, v, down)
    ensures b.stream.written == w + Carried(log, true) && a.written == v + Carried(log, false)
    ensures a.closed && b.stream.closed ==> aToB == |up| && bToA == |down|
  {
    hide Carried, Flowing;
    FlowBounds(log, true, w, up, Side(b.stream.written, a.source.rest, b.stream.closed, aToB));
    FlowBounds(log, false, v, down, Side(a.written, b.Remaining(), a.closed, bToA));
  }

  /** The client's branch, and what it does to the flow. */
  method ClientTurn(a: Stream, b: PrefixedStream, ghost log: seq<Transfer>, ghost ready: nat, ghost done: nat,
                    ghost w: seq<byte>, ghost up: seq<byte>, ghost v: seq<byte>, ghost down: seq<byte>,
                    ghost aToB: nat, ghost bToA: nat)
    returns (s: Step)
    requires b.Valid() && a != b.stream && !b.stream.closed && Flows(log, a, b, w, up, v, down, aToB, bToA)
    modifies a`source, b.stream`written, b.stream`closed
    ensures b.Remaining() == old(b.Remaining())
    ensures s.Moved? ==>
      && Flows(Record(log, Transfer(true, s.bytes, ready, done)), a, b, w, up, v, down, aToB + |s.bytes|, bToA)
      && !b.stream.closed && |a.source.rest| < |old(a.source.rest)|
    ensures s.Ended? ==>
      && Flows(log, a, b, w, up, v, down, aToB, bToA)
      && b.stream.closed && |a.source.rest| == |old(a.source.rest)|
    ensures s.Aborted? ==> Delivered(log, a, b, w, up, v, down)
    ensures old(a.Reliable() && b.stream.Reliable()) ==> a.Reliable() && b.stream.Reliable() && !s.Aborted?
  {
    hide Carried, Flowing;
    ghost var toB := Side(b.stream.written, a.source.rest, b.stream.closed, aToB);
    ghost var toA := Side(a.written, b.Remaining(), a.closed, bToA);
    FlowBounds(log, true, w, up, toB);
    FlowBounds(log, false, v, down, toA);
    s := FromClient(a, b.stream);
    if s.Moved? {
      FlowMoves(log, Transfer(true, s.bytes, ready, done), w, up, toB, a.source.rest, v, down, toA);
    } else if s.Ended? {
      FlowEnds(log, true, w, up, toB);
    }
  }

  /** The tunnel's branch. */
  method TunnelTurn(a: Stream, b: PrefixedStream, ghost log: seq<Transfer>, ghost ready: nat, ghost done: nat,
                    ghost w: seq<byte>, ghost up: seq<byte>, ghost v: seq<byte>, ghost down: seq<byte>,
                    ghost aToB: nat, ghost bToA: nat)
    returns (s: Step)
    requires b.Valid() && a != b.stream && !a.closed && Flows(log, a, b, w, up, v, down, aToB, bToA)
    modifies b, b.stream`source, a`written, a`closed
    ensures b.Valid()
    ensures s.Moved? ==>
      && Flows(Record(log, Transfer(false, s.bytes, ready, done)), a, b, w, up, v, down, aToB, bToA + |s.bytes|)
      && !a.closed && |b.Remaining()| < |old(b.Remaining())|
    ensures s.Ended? ==>
      && Flows(log, a, b, w, up, v, down, aToB, bToA)
      && a.closed && |b.Remaining()| == |old(b.Remaining())|
    ensures s.Aborted? ==> Delivered(log, a, b, w, up, v, down)
    ensures old(a.Reliable() && b.stream.Reliable()) ==> a.Reliable() && b.stream.Reliable() && !s.Aborted?
  {
    hide Carried, Flowing;
    ghost var toB := Side(b.stream.written, a.source.rest, b.stream.closed, aToB);
    ghost var toA := Side(a.written, b.Remaining(), a.closed, bToA);
    FlowBounds(log, true, w, up, toB);
    FlowBounds(log, false, v, down, toA);
    s := FromTunnel(b, a);
    if s.Moved? {
      FlowMoves(log, Transfer(false, s.bytes, ready, done), v, down, toA, b.Remaining(), w, up, toB);
    } else if s.Ended? {
      FlowEnds(log, false, v, down, toA);
    }
  }

  /** The `select!` loop. Each round waits until some branch is ready and takes any that is: a
      read, or the idle timer. */
  method CopyBidirectional(a: Stream, b: PrefixedStream, idleTimeout: nat, start: nat, timing: Timing)
    returns (r: Result<(nat, nat), RelayError>, now: nat, ghost log: seq<Transfer>)
    requires b.Valid() && a != b.stream && !a.closed && !b.stream.closed
    modifies a, b, b.stream
    ensures b.Valid()
    ensures Delivered(log, a, b, old(b.stream.written), old(a.source.rest), old(a.written), old(b.Remaining()))
    ensures r.Ok? ==> a.closed && b.stream.closed && r.value == (|old(a.source.rest)|, |old(b.Remaining())|)
    ensures r == Err(IdleTimeout) ==>
      && b.stream.written == old(b.stream.written) + Carried(log, true)
      && a.written == old(a.written) + Carried(log, false)
    ensures Punctual(r, log, timing, idleTimeout, start, now, b.stream.closed, a.closed)
    ensures old(a.Reliable() && b.stream.Reliable()) ==> r.Ok? || r.error.IdleTimeout?
  {
    hide Carried, Count, Flows, Delivered, Clocked, Punctual, ReadyAt;
    ghost var reliable := a.Reliable() && b.stream.Reliable();
    ghost var w, v, up, down := b.stream.written, a.written, a.source.rest, b.Remaining();
    FlowsStart(a, b);
    ClockStarts(timing, idleTimeout, start);
    var aToB: nat, bToA: nat, fromA: nat, fromB: nat := 0, 0, 0, 0;
    var aDone, bDone := false, false;
    now := start;
    var deadline: nat := start + idleTimeout;
    log := [];
    while !(aDone && bDone)
      invariant b.Valid() && aDone == b.stream.closed && bDone == a.closed
      invariant Flows(log, a, b, w, up, v, down, aToB, bToA)
      invariant Clocked(log, timing, idleTimeout, start, now, deadline, fromA, fromB, aDone, bDone)
      invariant reliable ==> a.Reliable() && b.stream.Reliable()
      decreases |a.source.rest| + |b.Remaining()|, (if aDone then 0 else 1) + (if bDone then 0 else 1)
    {
      var nextA, nextB := Next(timing.client, fromA, aDone), Next(timing.tunnel, fromB, bDone);
      var later := Wake(now, deadline, nextA, nextB, timing.lag);
      ClockWakes(log, timing, idleTimeout, start, now, deadline, fromA, fromB, aDone, bDone, later);
      now := later;
      var done := Later(now);
      if {
        case now >= deadline =>
          FlowsDeliver(log, a, b, w, up, v, down, aToB, bToA);
          PunctualTimeout(log, timing, idleTimeout, start, now, deadline, fromA, fromB, aDone, bDone);
          return Err(IdleTimeout), now, log;

        case !aDone && Due(nextA, now) =>
          var step := ClientTurn(a, b, log, nextA.value, done, w, up, v, down, aToB, bToA);
          match step {
            case Aborted(failure) =>
              r := Err(Failing(failure));
              PunctualEnd(r, log, timing, idleTimeout, start, now, deadline, fromA, fromB, aDone, bDone,
                          b.stream.closed, a.closed);
              return;
            case Ended =>
              ClockEnds(log, timing, idleTimeout, start, now, deadline, fromA, fromB, aDone, bDone, true);
              aDone := true;
            case Moved(bytes) =>
              ghost var t := Transfer(true, bytes, nextA.value, done);
              ClockMoves(log, timing, idleTimeout, start, now, deadline, fromA, fromB, aDone, bDone, t);
              now, deadline, log := done, done + idleTimeout, Record(log, t);
              aToB, fromA := aToB + |bytes|, fromA + 1;
          }

        case !bDone && Due(nextB, now) =>
          var step := TunnelTurn(a, b, log, nextB.value, done, w, up, v, down, aToB, bToA);
          match step {
            case Aborted(failure) =>
              r := Err(Failing(failure));
              PunctualEnd(r, log, timing, idleTimeout, start, now, deadline, fromA, fromB, aDone, bDone,
                          b.stream.closed, a.closed);
              return;
            case Ended =>
              ClockEnds(log, timing, idleTimeout, start, now, deadline, fromA, fromB, aDone, bDone, false);
              bDone := true;
            case Moved(bytes) =>
              ghost var t := Transfer(false, bytes, nextB.value, done);
              ClockMoves(log, timing, idleTimeout, start, now, deadline, fromA, fromB, aDone, bDone, t);
              now, deadline, log := done, done + idleTimeout, Record(log, t);
              bToA, fromB := bToA + |bytes|, fromB + 1;
          }
      }
    }
    FlowsDeliver(log, a, b, w, up, v, down, aToB, bToA);
    r := Ok((aToB, bToA));
    PunctualEnd(r, log, timing, idleTimeout, start, now, deadline, fromA, fromB, true, true, true, true);
  }

  // ---------------------------------------------------------------- choosing a hop

  /** What the other end of a dialed connection does: all it will send, and whether nothing
      breaks. */
  datatype Peer = Peer(reply: seq<byte>, reliable: bool)

  ghost predicate IsNewConnection(stream: Stream, peer: Peer)
    reads stream
  {
    stream.source.rest == peer.reply && stream.Reliable() == peer.reliable && stream.written == [] && !stream.closed
  }

  function DialedStreams(dials: seq<Option<Stream>>): set<Stream> {
    set i | 0 <= i < |dials| && dials[i].Some? :: dials[i].value
  }

  /** What dialing each hop gives: a new connection of its own, or nothing. */
  ghost predicate NewConnections(dials: seq<Option<Stream>>, peers: seq<Peer>)
    reads DialedStreams(dials)
  {
    && |dials| == |peers|
    && (forall i :: 0 <= i < |dials| && dials[i].Some? ==> IsNewConnection(dials[i].value, peers[i]))
    && (forall i, j :: 0 <= i < |dials| && 0 <= j < |dials| && i != j && dials[i].Some? ==> dials[i] != dials[j])
  }

  /** The hop can be dialed, its proxy opens the tunnel, and nothing breaks. */
  ghost predicate CanOpen(proxy: ProxyConfig, target: Target, dial: Option<Stream>, peer: Peer) {
    dial.Some? && peer.reliable && HandshakeFits(proxy, target, peer.reply)
  }

  /** At most the handshake was said on a connection. */
  ghost predicate OnlyHandshake(stream: Stream, proxy: ProxyConfig, target: Target, peer: Peer)
    reads stream
  {
    !stream.closed && stream.written <= HandshakeScript(proxy, target, peer.reply)
  }

  /** The tunnel through an opened connection: the handshake was said in full, and what is
      left to read is what the proxy sends after its reply. */
  ghost predicate OpenTunnel(tunnel: PrefixedStream, proxy: ProxyConfig, target: Target, peer: Peer)
    reads tunnel, tunnel.stream
  {
    && tunnel.Valid() && !tunnel.stream.closed
    && tunnel.stream.written == HandshakeScript(proxy, target, peer.reply)
    && ReplyLength(proxy, peer.reply).Some?
    && tunnel.Remaining() == peer.reply[ReplyLength(proxy, peer.reply).value..]
    && (peer.reliable ==> tunnel.stream.Reliable())
  }

  /** One attempt of the fallback loop. */
  method Attempt(proxy: ProxyConfig, dial: Option<Stream>, ghost peer: Peer, target: Target, ghost able: bool)
    returns (r: Option<PrefixedStream>)
    requires dial.Some? ==> IsNewConnection(dial.value, peer)
    requires able ==> CanOpen(proxy, target, dial, peer)
    modifies if dial.Some? then {dial.value} else {}
    ensures dial.Some? ==> OnlyHandshake(dial.value, proxy, target, peer)
    ensures r.Some? ==>
      dial.Some? && fresh(r.value) && r.value.stream == dial.value && OpenTunnel(r.value, proxy, target, peer)
    ensures able ==> r.Some?
  {
    r := None;
    if dial.Some? {
      var tunnel := Connect(proxy, dial.value, target);
      var empty: seq<byte> := [];
      assert empty + HandshakeScript(proxy, target, peer.reply) == HandshakeScript(proxy, target, peer.reply);
      r := if tunnel.Ok? then Some(tunnel.value) else None;
    }
  }

  /** Attempt `j` said no more than its handshake. */
  ghost predicate Said(hops: seq<Hop<ProxyConfig>>, dials: seq<Option<Stream>>, peers: seq<Peer>,
                       target: Target, j: nat)
    requires j < |hops| == |dials| == |peers|
    reads if dials[j].Some? then {dials[j].value} else {}
  {
    dials[j].Some? ==> OnlyHandshake(dials[j].value, hops[j].proxy, target, peers[j])
  }

  /** Attempt `j` was not made. */
  ghost predicate Untouched(dials: seq<Option<Stream>>, peers: seq<Peer>, j: nat)
    requires j < |dials| == |peers|
    reads if dials[j].Some? then {dials[j].value} else {}
  {
    dials[j].Some? ==> IsNewConnection(dials[j].value, peers[j])
  }

  /** `connect_with_fallback`: the first hop that dials and completes its handshake. */
  method ConnectWithFallback(hops: seq<Hop<ProxyConfig>>, dials: seq<Option<Stream>>, ghost peers: seq<Peer>,
                             target: Target, ghost able: seq<bool>)
    returns (r: Option<PrefixedStream>, via: nat)
    requires |dials| == |hops| == |peers| == |able| && NewConnections(dials, peers)
    requires forall j {:trigger CanOpen(hops[j].proxy, target, dials[j], peers[j])} ::
      0 <= j < |hops| && able[j] ==> CanOpen(hops[j].proxy, target, dials[j], peers[j])
    modifies DialedStreams(dials)
    ensures via <= |hops| && (r.None? ==> via == |hops|)
    ensures forall j :: 0 <= j < via ==> Said(hops, dials, peers, target, j) && !able[j]
    ensures forall j :: via < j < |hops| ==> Untouched(dials, peers, j)
    ensures r.Some? ==>
      && via < |hops| && dials[via].Some? && r.value.stream == dials[via].value && fresh(r.value)
      && OpenTunnel(r.value, hops[via].proxy, target, peers[via])
  {
    hide OpenTunnel, CanOpen, HandshakeScript;
    r, via := None, 0;
    while via < |hops|
      invariant via <= |hops| && r.None?
      invariant forall j :: 0 <= j < via ==> Said(hops, dials, peers, target, j) && !able[j]
      invariant forall j :: via <= j < |hops| ==> Untouched(dials, peers, j)
    {
      if dials[via].Some? {
        assert dials[via].value in DialedStreams(dials) && Untouched(dials, peers, via);
      }
      r := Attempt(hops[via].proxy, dials[via], peers[via], target, able[via]);
      assert Said(hops, dials, peers, target, via);
      if r.Some? {
        return;
      }
      via := via + 1;
    }
  }

  // ---------------------------------------------------------------- one connection

  datatype Protocol = InboundHttp | InboundHttps

  datatype ServeError = InitialWriteFailed | Relay(error: RelayError)

  /** How a connection ended; `Served` says through which hop of its route. */
  datatype Outcome = NotSniffed(reason: ReadError) | NoTunnel | Served(via: nat, result: Result<(nat, nat), ServeError>)

  /** End-to-end transparency of a connection served through `dials[via]`. Whatever happened,
      the proxy was sent its handshake and then a prefix of what the client sent, and the client
      was sent a prefix of what followed the proxy's reply; each side is shut down only when
      whole. */
  ghost predicate Transparent(inbound: Stream, upstream: Stream, proxy: ProxyConfig, target: Target,
                              client: seq<byte>, peer: Peer)
    reads inbound, upstream
  {
    var script := HandshakeScript(proxy, target, peer.reply);
    && ReplyLength(proxy, peer.reply).Some?
    && var server := peer.reply[ReplyLength(proxy, peer.reply).value..];
    && script <= upstream.written <= script + client
    && inbound.written <= server
    && (upstream.closed ==> upstream.written == script + client)
    && (inbound.closed ==> inbound.written == server)
  }

  /** Replays the sniffed bytes and relays: the part of `handle_connection` after the tunnel opened. */
  method ServeTunnel(inbound: Stream, tunnel: PrefixedStream, initial: seq<byte>, idleTimeout: nat, start: nat,
                     timing: Timing, ghost proxy: ProxyConfig, ghost target: Target, ghost peer: Peer)
    returns (r: Result<(nat, nat), ServeError>)
    requires OpenTunnel(tunnel, proxy, target, peer)
    requires inbound != tunnel.stream && inbound.written == [] && !inbound.closed
    modifies inbound, tunnel, tunnel.stream
    ensures Transparent(inbound, tunnel.stream, proxy, target, initial + old(inbound.source.rest), peer)
    ensures r.Ok? ==>
      && inbound.closed && tunnel.stream.closed
      && r.value == (|old(inbound.source.rest)|, |peer.reply| - ReplyLength(proxy, peer.reply).value)
    ensures old(inbound.Reliable()) && peer.reliable ==> r.Ok? || r.error == Relay(IdleTimeout)
    ensures Silent(timing) ==> r == Err(InitialWriteFailed) || r == Err(Relay(IdleTimeout))
  {
    hide HandshakeScript, ReplyLength;
    ghost var script, rest := HandshakeScript(proxy, target, peer.reply), inbound.source.rest;
    var sent := tunnel.stream.WriteAll(initial);
    PrefixGrows(tunnel.stream.written, script, initial, rest);
    if !sent {
      return Err(InitialWriteFailed);
    }
    assert script + initial + rest == script + (initial + rest);
    assert script <= script + initial;
    var relayed, now, log := CopyBidirectional(inbound, tunnel, idleTimeout, start, timing);
    var empty: seq<byte> := [];
    assert empty + tunnel.Remaining() == tunnel.Remaining();
    r := if relayed.Ok? then Ok(relayed.value) else Err(Relay(relayed.error));
  }

  /** The target the client's stream names. */
  ghost predicate Names(protocol: Protocol, client: seq<byte>, target: Target) {
    match protocol
    case InboundHttp => Http.ParseHttpHost(client) == Ok(target)
    case InboundHttps => TlsSni(client).Found? && target == Target(Text(TlsSni(client).host), 443)
  }

  /** What the reader of this protocol makes of what arrives, and what it leaves unread. */
  function Sniffed(protocol: Protocol, src: Source): (Result<(Target, seq<byte>), ReadError>, Source) {
    if protocol.InboundHttp? then Http.HttpTarget(src) else TlsReader.HttpsTarget(src)
  }

  /** The client's stream names a target within the bounds of its reader: a head that ends by byte
      65537; a ClientHello in a stream of at most 65536 bytes, or that ends by byte 64513. */
  ghost predicate CanSniff(protocol: Protocol, client: seq<byte>) {
    match protocol
    case InboundHttp =>
      && Http.HeaderEnd(client).Some? && Http.HeaderEnd(client).value + 4 <= 65537
      && Http.ParseHttpHost(client).Ok?
    case InboundHttps =>
      TlsSni(client).Found? && (|client| <= 65536 || TlsReader.AnswerLength(client) <= 64513)
  }

  lemma SniffableIsSniffed(protocol: Protocol, src: Source)
    requires src.FaultFree() && CanSniff(protocol, src.rest)
    ensures Sniffed(protocol, src).0.Ok?
  {
    match protocol
    case InboundHttp => Http.SmallRequestsGetTheParsersAnswer(src);
    case InboundHttps =>
      if |src.rest| <= 65536 {
        TlsReader.ShortStreamsGetTheParsersAnswer(src);
      } else {
        TlsReader.EarlyHelloGetsItsTarget(src);
      }
  }

  /** The bytes read to find the target are the start of the client's stream. */
  method Sniff(inbound: Stream, protocol: Protocol) returns (r: Result<(Target, seq<byte>), ReadError>)
    modifies inbound`source
    ensures (r, inbound.source) == Sniffed(protocol, old(inbound.source))
    ensures r.Ok? ==>
      && r.value.1 + inbound.source.rest == old(inbound.source.rest)
      && Names(protocol, old(inbound.source.rest), r.value.0)
    ensures old(inbound.Reliable()) ==> inbound.Reliable()
    ensures old(inbound.Reliable()) && CanSniff(protocol, old(inbound.source.rest)) ==> r.Ok?
  {
    ghost var src := inbound.source;
    if src.FaultFree() && CanSniff(protocol, src.rest) {
      SniffableIsSniffed(protocol, src);
    }
    match protocol {
      case InboundHttp =>
        Http.HttpTargetIsOfTheStream(inbound.source);
        r := Http.ReadHttpTarget(inbound);
      case InboundHttps =>
        TlsReader.AcceptedHelloIsOfTheStream(inbound.source);
        r := TlsReader.ReadHttpsTarget(inbound);
    }
  }

  /** Which hops could open a tunnel to the target. */
  ghost function Openable(hops: seq<Hop<ProxyConfig>>, dials: seq<Option<Stream>>, peers: seq<Peer>, target: Target)
    : (able: seq<bool>)
    requires |hops| == |dials| == |peers|
    ensures |able| == |hops|
    ensures forall j {:trigger CanOpen(hops[j].proxy, target, dials[j], peers[j])} ::
      0 <= j < |hops| ==> able[j] == CanOpen(hops[j].proxy, target, dials[j], peers[j])
  {
    seq(|hops|, j requires 0 <= j < |hops| => CanOpen(hops[j].proxy, target, dials[j], peers[j]))
  }

  /** The outcome of a connection whose client named `target`: hops before the one that served
      could not open a tunnel and heard at most a handshake, later ones were not dialed, and the
      service was transparent. */
  ghost predicate Forwarded(inbound: Stream, hops: seq<Hop<ProxyConfig>>, dials: seq<Option<Stream>>, peers: seq<Peer>,
                            target: Target, client: seq<byte>, able: seq<bool>, o: Outcome)
    requires |hops| == |dials| == |peers| == |able|
    reads inbound, DialedStreams(dials)
  {
    match o
    case NotSniffed(_) => false
    case NoTunnel =>
      && inbound.written == [] && !inbound.closed
      && (forall j :: 0 <= j < |hops| ==> Said(hops, dials, peers, target, j) && !able[j])
    case Served(via, result) =>
      && via < |hops| && dials[via].Some?
      && (forall j :: 0 <= j < via ==> Said(hops, dials, peers, target, j) && !able[j])
      && (forall j :: via < j < |hops| ==> Untouched(dials, peers, j))
      && Transparent(inbound, dials[via].value, hops[via].proxy, target, client, peers[via])
      && (result.Ok? ==> inbound.closed && dials[via].value.closed)
  }

  /** `handle_connection` once the target is known. */
  method ForwardTo(inbound: Stream, hops: seq<Hop<ProxyConfig>>, dials: seq<Option<Stream>>, ghost peers: seq<Peer>,
                   target: Target, initial: seq<byte>, idleTimeout: nat, start: nat, timing: Timing,
                   ghost able: seq<bool>)
    returns (o: Outcome)
    requires inbound.written == [] && !inbound.closed && inbound !in DialedStreams(dials)
    requires |dials| == |hops| == |peers| == |able| && NewConnections(dials, peers)
    requires forall j {:trigger CanOpen(hops[j].proxy, target, dials[j], peers[j])} ::
      0 <= j < |hops| && able[j] ==> CanOpen(hops[j].proxy, target, dials[j], peers[j])
    modifies inbound, DialedStreams(dials)
    ensures Forwarded(inbound, hops, dials, peers, target, initial + old(inbound.source.rest), able, o)
    ensures (old(inbound.Reliable()) && o.Served? && peers[o.via].reliable) ==>
      o.result.Ok? || o.result.error == Relay(IdleTimeout)
    ensures o.Served? && Silent(timing) ==>
      o.result == Err(InitialWriteFailed) || o.result == Err(Relay(IdleTimeout))
  {
    hide Transparent, OpenTunnel, CanOpen, Said, Untouched;
    var tunnel, via := ConnectWithFallback(hops, dials, peers, target, able);
    if tunnel.None? {
      return NoTunnel;
    }
    assert dials[via].value in DialedStreams(dials);
    assert forall j :: 0 <= j < |hops| && j != via && dials[j].Some? ==> dials[j].value in DialedStreams(dials);
    var result := ServeTunnel(inbound, tunnel.value, initial, idleTimeout, start, timing,
                              hops[via].proxy, target, peers[via]);
    o := Served(via, result);
  }

  lemma PartOfNewConnections(dials: seq<Option<Stream>>, peers: seq<Peer>, n: nat)
    requires NewConnections(dials, peers) && n <= |dials|
    ensures NewConnections(dials[..n], peers[..n]) && DialedStreams(dials[..n]) <= DialedStreams(dials)
  {
    assert forall i :: 0 <= i < n ==> dials[..n][i] == dials[i];
  }

  /** `handle_connection`: sniff, route, connect, replay, relay. `dials[j]` is what dialing the
      `j`-th hop of the route gives. */
  method HandleConnection(inbound: Stream, protocol: Protocol, router: Router<ProxyConfig>,
                          dials: seq<Option<Stream>>, ghost peers: seq<Peer>, idleTimeout: nat, start: nat,
                          timing: Timing)
    returns (o: Outcome, target: Target)
    requires inbound.written == [] && !inbound.closed
    requires NewConnections(dials, peers) && inbound !in DialedStreams(dials)
    requires forall host :: |router.Lookup(host)| <= |dials|
    modifies inbound, DialedStreams(dials)
    ensures o.NotSniffed? <==> Sniffed(protocol, old(inbound.source)).0.Err?
    ensures old(inbound.Reliable()) && CanSniff(protocol, old(inbound.source.rest)) ==> !o.NotSniffed?
    ensures o.NotSniffed? ==>
      inbound.written == [] && !inbound.closed && forall j :: 0 <= j < |dials| ==> Untouched(dials, peers, j)
    ensures !o.NotSniffed? ==>
      var hops := router.Lookup(target.host);
      var n := |hops|;
      && Names(protocol, old(inbound.source.rest), target)
      && Forwarded(inbound, hops, dials[..n], peers[..n], target, old(inbound.source.rest),
                   Openable(hops, dials[..n], peers[..n], target), o)
    ensures (o.Served? && old(inbound.Reliable()) && peers[..|router.Lookup(target.host)|][o.via].reliable) ==>
      o.result.Ok? || o.result.error == Relay(IdleTimeout)
    ensures o.Served? && Silent(timing) ==>
      o.result == Err(InitialWriteFailed) || o.result == Err(Relay(IdleTimeout))
  {
    target := Target("", 0);
    var sniffed := Sniff(inbound, protocol);
    if sniffed.Err? {
      return NotSniffed(sniffed.error), target;
    }
    target := sniffed.value.0;
    var hops := router.Lookup(target.host);
    var n := |hops|;
    PartOfNewConnections(dials, peers, n);
    ghost var able := Openable(hops, dials[..n], peers[..n], target);
    o := ForwardTo(inbound, hops, dials[..n], peers[..n], target, sniffed.value.1, idleTimeout, start, timing, able);
  }
}
