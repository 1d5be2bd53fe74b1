/** The watchdog of src/watchdog.rs; instants and durations in nanoseconds. */
module Watchdog {
  import opened Wrappers

  const MILLISECOND: nat := 1_000_000

  const U64_MAX: nat := 0xFFFF_FFFF_FFFF_FFFF

  function WholeMilliseconds(elapsed: nat): nat {
    if elapsed / MILLISECOND < U64_MAX then elapsed / MILLISECOND else U64_MAX
  }

  /** A beat stores whole milliseconds, so it is credited with an instant up to one millisecond
      before the one at which it read the clock. */
  lemma CreditIsClose(elapsed: nat)
    ensures WholeMilliseconds(elapsed) * 1_000_000 <= elapsed
    ensures elapsed < 18446744073709551615 * 1_000_000 ==> elapsed < (WholeMilliseconds(elapsed) + 1) * 1_000_000
  {
  }

  /** The atomic steps around one heartbeat, at instants measured from its origin. A beat reads
      the clock and stores that reading later; a poll loads the heartbeat and then reads the
      clock. Several loops may beat at once, so readings may be stored out of order. */
  datatype Event = Store(read: nat, at: nat) | Load(at: nat) | Check(at: nat)

  ghost predicate Ordered(events: seq<Event>) {
    && (forall i, j :: 0 <= i < j < |events| ==> events[i].at <= events[j].at)
    && (forall i :: 0 <= i < |events| && events[i].Store? ==> events[i].read <= events[i].at)
  }

  /** The reading stored last; the constructor stores the origin. */
  function LastStored(events: seq<Event>): nat {
    if events == [] then 0
    else if events[|events| - 1].Store? then events[|events| - 1].read
    else LastStored(events[..|events| - 1])
  }

  /** The reading that the newest load found. */
  function LastLoaded(events: seq<Event>): nat {
    if events == [] then 0
    else if events[|events| - 1].Load? then LastStored(events[..|events| - 1])
    else LastLoaded(events[..|events| - 1])
  }

  class Heartbeat {
    var lastMs: nat

    constructor ()
      ensures lastMs == 0
    {
      lastMs := 0;
    }

    /** `beat`, with the clock's reading. */
    method Beat(elapsed: nat)
      modifies this
      ensures lastMs == WholeMilliseconds(elapsed) <= U64_MAX
    {
      lastMs := if elapsed / MILLISECOND <= U64_MAX then elapsed / MILLISECOND else U64_MAX;
    }
  }

  /** `stalled_for`, with what it loaded and the clock's reading. */
  predicate StalledFor(lastMs: nat, limit: nat, elapsed: nat) {
    var last := lastMs * MILLISECOND;
    (if elapsed < last then 0 else elapsed - last) > limit
  }

  /** Check `k` finds the loaded beat credited more than `limit` ago. */
  ghost predicate Late(events: seq<Event>, k: nat, limit: nat)
    requires k < |events|
  {
    events[k].Check? && events[k].at > WholeMilliseconds(LastLoaded(events[..k])) * MILLISECOND + limit
  }

  /** The watchdog's loop, with the steps of beats anywhere between its own; it fires once. */
  method Watch(events: seq<Event>, limit: nat) returns (fired: Option<nat>)
    ensures fired.Some? ==> fired.value < |events| && Late(events, fired.value, limit)
    ensures forall k :: 0 <= k < (if fired.Some? then fired.value else |events|) ==> !Late(events, k, limit)
  {
    var heartbeat := new Heartbeat();
    var loaded := 0;
    var k := 0;
    while k < |events|
      invariant 0 <= k <= |events|
      invariant heartbeat.lastMs == WholeMilliseconds(LastStored(events[..k]))
      invariant loaded == WholeMilliseconds(LastLoaded(events[..k]))
      invariant forall j :: 0 <= j < k ==> !Late(events, j, limit)
    {
      assert events[..k + 1][..k] == events[..k];
      match events[k] {
        case Store(read, _) =>
          heartbeat.Beat(read);
        case Load(_) =>
          loaded := heartbeat.lastMs;
        case Check(at) =>
          if StalledFor(loaded, limit, at) {
            return Some(k);
          }
      }
      k := k + 1;
    }
    return None;
  }

  // ---------------------------------------------------------------- what a load finds

  /** When `s` is a store and `l` a later load, what the newest load finds is the reading of
      some store not before `s`. */
  lemma {:induction false} StoredSince(events: seq<Event>, s: nat) returns (i: nat)
    requires s < |events| && events[s].Store?
    ensures s <= i < |events| && events[i].Store? && events[i].read == LastStored(events)
    decreases |events|
  {
    var n := |events| - 1;
    if events[n].Store? {
      i := n;
    } else {
      i := StoredSince(events[..n], s);
    }
  }

  lemma {:induction false} LoadedSince(events: seq<Event>, s: nat, l: nat) returns (i: nat)
    requires s < l < |events| && events[s].Store? && events[l].Load?
    ensures s <= i < |events| && events[i].Store? && events[i].read == LastLoaded(events)
    decreases |events|
  {
    var n := |events| - 1;
    if events[n].Load? {
      i := StoredSince(events[..n], s);
    } else {
      i := LoadedSince(events[..n], s, l);
    }
  }

  lemma {:induction false} StoredIsARead(events: seq<Event>)
    ensures LastStored(events) == 0
         || exists i :: 0 <= i < |events| && events[i].Store? && events[i].read == LastStored(events)
    decreases |events|
  {
    if events != [] && !events[|events| - 1].Store? {
      var n := |events| - 1;
      StoredIsARead(events[..n]);
      assert forall i :: 0 <= i < n ==> events[..n][i] == events[i];
    }
  }

  lemma {:induction false} LoadedIsARead(events: seq<Event>)
    ensures LastLoaded(events) == 0
         || exists i :: 0 <= i < |events| && events[i].Store? && events[i].read == LastLoaded(events)
    decreases |events|
  {
    if events != [] {
      var n := |events| - 1;
      StoredIsARead(events[..n]);
      LoadedIsARead(events[..n]);
      assert forall i :: 0 <= i < n ==> events[..n][i] == events[i];
    }
  }

  // ---------------------------------------------------------------- no false alarm

  /** No reading is stored more than `lag` after it was taken. */
  ghost predicate StoresWithin(events: seq<Event>, lag: nat) {
    forall i :: 0 <= i < |events| && events[i].Store? ==> events[i].at <= events[i].read + lag
  }

  /** Before the load of the poll that checks at `k`, a beat was stored at most `age` before the
      check. */
  ghost predicate BeatBefore(events: seq<Event>, k: nat, age: nat)
    requires k < |events|
  {
    exists s, l :: 0 <= s < l < k && events[s].Store? && events[l].Load? && events[k].at <= events[s].at + age
  }

  lemma BeatenIsNotLate(events: seq<Event>, k: nat, limit: nat, lag: nat, age: nat)
    requires Ordered(events) && StoresWithin(events, lag) && age + lag + MILLISECOND <= limit + 1
    requires k < |events| && events[k].at < U64_MAX * MILLISECOND
    requires BeatBefore(events, k, age)
    ensures !Late(events, k, limit)
  {
    var s, l :| 0 <= s < l < k && events[s].Store? && events[l].Load? && events[k].at <= events[s].at + age;
    var i := LoadedSince(events[..k], s, l);
    assert events[..k][i] == events[i];
    CreditIsClose(LastLoaded(events[..k]));
  }

  /** No false alarm: when a beat was stored recently enough before every poll, the watchdog
      never fires. Recently enough leaves, out of the limit, the delay of a store and the
      millisecond lost to rounding. */
  lemma BeatingKeepsQuiet(events: seq<Event>, limit: nat, lag: nat, age: nat)
    requires Ordered(events) && StoresWithin(events, lag) && age + lag + 1_000_000 <= limit + 1
    requires forall k :: 0 <= k < |events| ==> events[k].at < U64_MAX * MILLISECOND
    requires forall k :: 0 <= k < |events| && events[k].Check? ==> BeatBefore(events, k, age)
    ensures forall k :: 0 <= k < |events| ==> !Late(events, k, limit)
  {
    forall k | 0 <= k < |events|
      ensures !Late(events, k, limit)
    {
      if events[k].Check? {
        BeatenIsNotLate(events, k, limit, lag, age);
      }
    }
  }

  // ---------------------------------------------------------------- no missed stall

  /** Checks come at most `gap` after the one before, the first at most `gap` after the origin. */
  ghost predicate ChecksWithin(events: seq<Event>, gap: nat) {
    forall j :: 0 <= j < |events| && events[j].Check? ==>
      || events[j].at <= gap
      || exists i :: 0 <= i < j && events[i].Check? && events[j].at <= events[i].at + gap
  }

  ghost predicate FirstLate(events: seq<Event>, k: nat, limit: nat)
    requires k < |events|
  {
    Late(events, k, limit) && forall j :: 0 <= j < k ==> !Late(events, j, limit)
  }

  lemma OldBeatsAreLate(events: seq<Event>, limit: nat, beat: nat, k: nat)
    requires forall i :: 0 <= i < |events| && events[i].Store? ==> events[i].read <= beat
    requires k < |events| && events[k].Check? && events[k].at > beat + limit
    ensures Late(events, k, limit)
  {
    var seen := events[..k];
    LoadedIsARead(seen);
    assert forall i :: 0 <= i < k ==> seen[i] == events[i];
    CreditIsClose(LastLoaded(seen));
  }

  /** No missed stall: when no beat reads the clock after `beat` and some check comes more than
      the limit later, the watchdog fires, and at most one gap after the limit has passed. */
  lemma StallsFire(events: seq<Event>, limit: nat, gap: nat, beat: nat, last: nat)
    requires ChecksWithin(events, gap)
    requires forall i :: 0 <= i < |events| && events[i].Store? ==> events[i].read <= beat
    requires last < |events| && events[last].Check? && events[last].at > beat + limit
    ensures Late(events, last, limit)
    ensures forall k :: 0 <= k < |events| && FirstLate(events, k, limit) ==> events[k].at <= beat + limit + gap
  {
    OldBeatsAreLate(events, limit, beat, last);
    forall k | 0 <= k < |events| && FirstLate(events, k, limit)
      ensures events[k].at <= beat + limit + gap
    {
      if events[k].at > beat + limit + gap {
        var i :| 0 <= i < k && events[i].Check? && events[k].at <= events[i].at + gap;
        OldBeatsAreLate(events, limit, beat, i);
        assert false;
      }
    }
  }
}
