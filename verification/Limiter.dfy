/** Config fetches under the in-flight limiter: the atomic steps of src/reload.rs, interleaved
    in any order. */
module Limiter {
  import opened Wrappers

  datatype FetchResult = Fetched(text: string) | TimedOut | InFlight | ThreadSpawn | ThreadDropped | FetchFailed

  /** Where the caller of one fetch is. */
  datatype Caller =
    | Loading                       // about to load the counter
    | Exchanging(seen: nat)         // about to compare-exchange it
    | Spawning                      // holds the guard, about to spawn the thread
    | Waiting                       // waits for the thread under the hard timeout
    | Returned(result: FetchResult)

  /** Where its thread is; the guard lives in the thread. */
  datatype Thread = NotStarted | Fetching | Reported | Unwinding | Ended

  datatype Channel = Empty | Holding(result: FetchResult) | SenderGone | ReceiverGone

  /** One call of `fetch_with_hard_timeout`, with how often it took and gave back a slot. */
  datatype Attempt = Attempt(caller: Caller, thread: Thread, channel: Channel, taken: nat, freed: nat)

  const FRESH: Attempt := Attempt(Loading, NotStarted, Empty, 0, 0)

  /** What happens next to an attempt; a choice that is not possible does nothing. */
  datatype Choice =
    | Load | Exchange | SpawnSucceeds | SpawnFails
    | Fetch(text: Option<string>)   // the fetch ends, with a text or an error
    | Panic | DropSender | DropGuard
    | Receive | Expire

  datatype State = State(max: nat, current: nat, attempts: seq<Attempt>)

  type Schedule = seq<(nat, Choice)>

  predicate HasGuard(a: Attempt) {
    a.caller.Spawning? || a.thread.Fetching? || a.thread.Reported?
  }

  /** One atomic step of one attempt, and its effect on the counter. */
  function Act(a: Attempt, max: nat, current: nat, c: Choice): (Attempt, int) {
    match (c, a.caller, a.thread, a.channel)
    case (Load, Loading, _, _) =>
      (a.(caller := if current >= max then Returned(InFlight) else Exchanging(current)), 0)
    case (Exchange, Exchanging(seen), _, _) =>
      if current == seen then (a.(caller := Spawning, taken := a.taken + 1), 1) else (a.(caller := Loading), 0)
    case (SpawnSucceeds, Spawning, _, _) => (a.(caller := Waiting, thread := Fetching), 0)
    case (SpawnFails, Spawning, _, _) => (a.(caller := Returned(ThreadSpawn), freed := a.freed + 1), -1)
    case (Fetch(text), _, Fetching, Empty) =>
      (a.(thread := Reported, channel := Holding(if text.Some? then Fetched(text.value) else FetchFailed)), 0)
    case (Fetch(_), _, Fetching, ReceiverGone) => (a.(thread := Reported), 0)
    case (Panic, _, Fetching, _) => (a.(thread := Unwinding, freed := a.freed + 1), -1)
    case (DropSender, _, Unwinding, Empty) => (a.(thread := Ended, channel := SenderGone), 0)
    case (DropSender, _, Unwinding, ReceiverGone) => (a.(thread := Ended), 0)
    case (DropGuard, _, Reported, _) => (a.(thread := Ended, freed := a.freed + 1), -1)
    case (Receive, Waiting, _, Holding(r)) => (a.(caller := Returned(r), channel := ReceiverGone), 0)
    case (Receive, Waiting, _, SenderGone) => (a.(caller := Returned(ThreadDropped), channel := ReceiverGone), 0)
    case (Expire, Waiting, _, Empty) => (a.(caller := Returned(TimedOut), channel := ReceiverGone), 0)
    case _ => (a, 0)
  }

  /** The counter after a step; that it never underflows is `CounterCountsGuards`. */
  function Bump(current: nat, delta: int): nat {
    if current + delta < 0 then 0 else current + delta
  }

  function Next(s: State, i: nat, c: Choice): State {
    if i >= |s.attempts| then s
    else
      var (a, delta) := Act(s.attempts[i], s.max, s.current, c);
      State(s.max, Bump(s.current, delta), s.attempts[i := a])
  }

  function Run(s: State, schedule: Schedule): State
    decreases |schedule|
  {
    if schedule == [] then s else Run(Next(s, schedule[0].0, schedule[0].1), schedule[1..])
  }

  // ---------------------------------------------------------------- the invariant

  function Guards(attempts: seq<Attempt>): nat {
    if attempts == [] then 0 else (if HasGuard(attempts[0]) then 1 else 0) + Guards(attempts[1..])
  }

  /** The shapes one attempt can have. */
  ghost predicate Shaped(a: Attempt) {
    && a.freed <= a.taken <= 1
    && (HasGuard(a) <==> a.taken == 1 && a.freed == 0)
    && (a.caller.Loading? || a.caller.Exchanging? ==> a.taken == 0)
    && (a.caller.Loading? || a.caller.Exchanging? || a.caller.Spawning? ==> a.thread.NotStarted? && a.channel.Empty?)
    && (a.caller.Waiting? ==> !a.thread.NotStarted? && !a.channel.ReceiverGone?)
    && (a.thread.Fetching? || a.thread.Unwinding? ==> a.channel.Empty? || a.channel.ReceiverGone?)
    && (a.thread.Reported? ==> a.channel.Holding? || a.channel.ReceiverGone?)
    && (a.thread.Ended? ==> !a.channel.Empty?)
    && (a.channel.Holding? ==> a.channel.result.Fetched? || a.channel.result.FetchFailed?)
    && (a.caller.Returned? && a.thread.NotStarted? ==> a.caller.result.InFlight? || a.caller.result.ThreadSpawn?)
    && (a.caller.Returned? && !a.thread.NotStarted? ==> a.channel.ReceiverGone?)
    && (a.caller.Returned? && (a.caller.result.Fetched? || a.caller.result.FetchFailed?) ==>
          a.thread.Reported? || a.thread.Ended?)
  }

  ghost predicate Invariant(s: State) {
    && s.current == Guards(s.attempts) <= s.max
    && forall i :: 0 <= i < |s.attempts| ==> Shaped(s.attempts[i])
  }

  lemma {:induction false} GuardsOfUpdate(attempts: seq<Attempt>, i: nat, a: Attempt)
    requires i < |attempts|
    ensures Guards(attempts[i := a])
         == Guards(attempts) - (if HasGuard(attempts[i]) then 1 else 0) + (if HasGuard(a) then 1 else 0)
  {
    if i == 0 {
      assert attempts[0 := a][1..] == attempts[1..];
    } else {
      assert attempts[i := a][1..] == attempts[1..][i - 1 := a];
      GuardsOfUpdate(attempts[1..], i - 1, a);
    }
  }

  /** A step changes the counter by as much as it changes the number of guards. */
  lemma ActKeepsShape(a: Attempt, max: nat, current: nat, c: Choice)
    requires Shaped(a)
    ensures var (b, delta) := Act(a, max, current, c);
      && Shaped(b)
      && delta == (if HasGuard(b) then 1 else 0) - (if HasGuard(a) then 1 else 0)
      && (delta == 1 ==> a.caller == Exchanging(current))
  {
  }

  ghost predicate SeenBelowMax(s: State) {
    forall i :: 0 <= i < |s.attempts| && s.attempts[i].caller.Exchanging? ==> s.attempts[i].caller.seen < s.max
  }

  lemma StepKeepsInvariant(s: State, i: nat, c: Choice)
    requires Invariant(s) && SeenBelowMax(s)
    ensures Invariant(Next(s, i, c)) && SeenBelowMax(Next(s, i, c))
    ensures i < |s.attempts| ==> Next(s, i, c).current == s.current + Act(s.attempts[i], s.max, s.current, c).1
  {
    if i < |s.attempts| {
      var (a, delta) := Act(s.attempts[i], s.max, s.current, c);
      ActKeepsShape(s.attempts[i], s.max, s.current, c);
      GuardsOfUpdate(s.attempts, i, a);
    }
  }

  lemma {:induction false} FreshHaveNoGuards(n: nat)
    ensures Guards(seq(n, i => FRESH)) == 0
  {
    if n > 0 {
      assert seq(n, i => FRESH)[1..] == seq(n - 1, i => FRESH);
      FreshHaveNoGuards(n - 1);
    }
  }

  lemma {:induction false} RunKeepsInvariant(s: State, schedule: Schedule)
    requires Invariant(s) && SeenBelowMax(s)
    ensures Invariant(Run(s, schedule)) && SeenBelowMax(Run(s, schedule))
    decreases |schedule|
  {
    if schedule != [] {
      StepKeepsInvariant(s, schedule[0].0, schedule[0].1);
      RunKeepsInvariant(Next(s, schedule[0].0, schedule[0].1), schedule[1..]);
    }
  }

  function Start(max: nat, n: nat): State {
    State(max, 0, seq(n, i => FRESH))
  }

  lemma {:induction false} RunKeepsMax(s: State, schedule: Schedule)
    ensures Run(s, schedule).max == s.max && |Run(s, schedule).attempts| == |s.attempts|
    decreases |schedule|
  {
    if schedule != [] {
      RunKeepsMax(Next(s, schedule[0].0, schedule[0].1), schedule[1..]);
    }
  }

  /** In every interleaving of any number of fetches the counter is the number of live guards
      and never exceeds the maximum; each fetch takes at most one slot and never gives back
      more than it took. */
  lemma CounterCountsGuards(max: nat, n: nat, schedule: Schedule)
    ensures var s := Run(Start(max, n), schedule);
      && s.current == Guards(s.attempts) <= max
      && forall i :: 0 <= i < |s.attempts| ==> s.attempts[i].freed <= s.attempts[i].taken <= 1
  {
    FreshHaveNoGuards(n);
    RunKeepsInvariant(Start(max, n), schedule);
    RunKeepsMax(Start(max, n), schedule);
  }

  // ---------------------------------------------------------------- release and results

  /** How many of its own steps an attempt that holds a guard is away from giving it back. */
  function StepsToRelease(a: Attempt): nat {
    if a.caller.Spawning? then 3 else if a.thread.Fetching? then 2 else if a.thread.Reported? then 1 else 0
  }

  /** The step that brings the holder of a guard closer to giving it back. */
  function Release(a: Attempt): Choice {
    if a.caller.Spawning? then SpawnSucceeds else if a.thread.Fetching? then Fetch(None) else DropGuard
  }

  /** Whichever way a fetch ends, its slot comes back: a guard holder always has an enabled
      step besides the caller's, and each step that moves its thread brings the release closer.
      A timeout does not: the abandoned thread keeps the slot until it ends. */
  lemma SlotsComeBack(a: Attempt, max: nat, current: nat, c: Choice)
    requires Shaped(a) && HasGuard(a)
    ensures var b := Act(a, max, current, c).0;
      && StepsToRelease(b) <= StepsToRelease(a)
      && (StepsToRelease(b) == 0 <==> b.freed == 1)
      && (b.caller.Spawning? == a.caller.Spawning? && b.thread == a.thread ==> StepsToRelease(b) == StepsToRelease(a))
      && (b.caller.Spawning? != a.caller.Spawning? || b.thread != a.thread ==> StepsToRelease(b) < StepsToRelease(a))
    ensures StepsToRelease(Act(a, max, current, Release(a)).0) < StepsToRelease(a)
    ensures a.caller.Waiting? && a.channel.Empty? ==>
      var b := Act(a, max, current, Expire).0;
      b.caller == Returned(TimedOut) && HasGuard(b)
  {
  }

  /** How many steps of a run moved attempt `i` closer to giving its slot back. */
  function Moves(s: State, i: nat, schedule: Schedule): nat
    requires i < |s.attempts|
    decreases |schedule|
  {
    if schedule == [] then 0
    else
      var next := Next(s, schedule[0].0, schedule[0].1);
      var moved := StepsToRelease(next.attempts[i]) < StepsToRelease(s.attempts[i]);
      (if moved then 1 else 0) + Moves(next, i, schedule[1..])
  }

  lemma AcquiredStep(s: State, i: nat, j: nat, c: Choice)
    requires Invariant(s) && i < |s.attempts| && s.attempts[i].taken == 1
    ensures var a, b := s.attempts[i], Next(s, j, c).attempts[i];
      b.taken == 1 && StepsToRelease(b) <= StepsToRelease(a)
  {
  }

  /** In every run, an acquired slot is given back exactly once, after at most three moves of
      its own fetch, whatever the other fetches and its caller do meanwhile. */
  lemma {:induction false} AcquiredSlotsComeBack(s: State, i: nat, schedule: Schedule)
    requires Invariant(s) && SeenBelowMax(s) && i < |s.attempts| && s.attempts[i].taken == 1
    ensures i < |Run(s, schedule).attempts|
    ensures var a := Run(s, schedule).attempts[i];
      && a.taken == 1
      && Moves(s, i, schedule) + StepsToRelease(a) <= StepsToRelease(s.attempts[i]) <= 3
      && (a.freed == 1 <==> StepsToRelease(a) == 0)
      && (Moves(s, i, schedule) == StepsToRelease(s.attempts[i]) ==> a.freed == 1)
    decreases |schedule|
  {
    if schedule != [] {
      var (j, c) := schedule[0];
      StepKeepsInvariant(s, j, c);
      AcquiredStep(s, i, j, c);
      AcquiredSlotsComeBack(Next(s, j, c), i, schedule[1..]);
    }
  }

  /** A result is final: no later step, the end of an abandoned fetch included, changes it. */
  lemma {:induction false} ResultsAreFinal(s: State, i: nat, schedule: Schedule)
    requires i < |s.attempts| && s.attempts[i].caller.Returned?
    ensures i < |Run(s, schedule).attempts| && Run(s, schedule).attempts[i].caller == s.attempts[i].caller
    decreases |schedule|
  {
    if schedule != [] {
      var (j, c) := schedule[0];
      assert j == i ==> Act(s.attempts[i], s.max, s.current, c).0.caller == s.attempts[i].caller;
      ResultsAreFinal(Next(s, j, c), i, schedule[1..]);
    }
  }

  /** A fetch is refused exactly when every slot is held by a live guard, of an abandoned fetch
      or not. */
  lemma RefusedExactlyWhenFull(s: State, j: nat)
    requires Invariant(s) && j < |s.attempts| && s.attempts[j].caller.Loading?
    ensures Next(s, j, Load).attempts[j].caller == Returned(InFlight) <==> Guards(s.attempts) == s.max
  {
  }

  lemma RunStep(s: State, i: nat, c: Choice, rest: Schedule)
    ensures Run(s, [(i, c)] + rest) == Run(Next(s, i, c), rest)
  {
    assert ([(i, c)] + rest)[1..] == rest;
  }

  /** Of one slot: while the thread of a fetch that timed out goes on, the next fetch is refused;
      once it has ended, the next fetch may go ahead. */
  lemma AbandonedFetchHoldsItsSlot(text: Option<string>)
    ensures var s := Run(Start(1, 2), [(0, Load)] + ([(0, Exchange)] + ([(0, SpawnSucceeds)] + ([(0, Expire)] + []))));
      && |s.attempts| == 2 && s.attempts[0].caller == Returned(TimedOut)
      && Next(s, 1, Load).attempts[1].caller == Returned(InFlight)
      && Next(Next(Next(s, 0, Fetch(text)), 0, DropGuard), 1, Load).attempts[1].caller == Exchanging(0)
  {
    var s0 := Start(1, 2);
    var s1 := Next(s0, 0, Load);
    var s2 := Next(s1, 0, Exchange);
    var s3 := Next(s2, 0, SpawnSucceeds);
    RunStep(s0, 0, Load, [(0, Exchange)] + ([(0, SpawnSucceeds)] + ([(0, Expire)] + [])));
    RunStep(s1, 0, Exchange, [(0, SpawnSucceeds)] + ([(0, Expire)] + []));
    RunStep(s2, 0, SpawnSucceeds, [(0, Expire)] + []);
    RunStep(s3, 0, Expire, []);
  }

  lemma {:induction false} NoGuards(attempts: seq<Attempt>)
    requires forall i :: 0 <= i < |attempts| ==> !HasGuard(attempts[i])
    ensures Guards(attempts) == 0
  {
    if attempts != [] {
      NoGuards(attempts[1..]);
    }
  }

  /** Once everything has ended, every slot is free again. */
  lemma QuiescenceFreesAllSlots(s: State)
    requires Invariant(s)
    requires forall i :: 0 <= i < |s.attempts| ==>
      s.attempts[i].caller.Returned? && (s.attempts[i].thread.NotStarted? || s.attempts[i].thread.Ended?)
    ensures s.current == 0
    ensures forall i :: 0 <= i < |s.attempts| ==> s.attempts[i].taken == s.attempts[i].freed
  {
    NoGuards(s.attempts);
  }

  // ---------------------------------------------------------------- the shared counter

  /** The counter and the attempts that share it, changed in place one atomic step at a time. */
  class InFlightFetches {
    const max: nat
    var current: nat
    var attempts: seq<Attempt>

    constructor (max: nat, n: nat)
      ensures this.max == max && Snapshot() == Start(max, n) && Valid()
    {
      this.max, current, attempts := max, 0, seq(n, i => FRESH);
      FreshHaveNoGuards(n);
    }

    function Snapshot(): State
      reads this
    {
      State(max, current, attempts)
    }

    ghost predicate Valid()
      reads this
    {
      Invariant(Snapshot()) && SeenBelowMax(Snapshot())
    }

    method Step(i: nat, c: Choice)
      requires Valid()
      modifies this
      ensures Valid() && Snapshot() == Next(old(Snapshot()), i, c)
    {
      StepKeepsInvariant(Snapshot(), i, c);
      if i < |attempts| {
        var (a, delta) := Act(attempts[i], max, current, c);
        current := Bump(current, delta);
        attempts := attempts[i := a];
      }
    }

    /** What other fetches do meanwhile. */
    method Others(i: nat, schedule: Schedule)
      requires Valid() && i < |attempts| && forall k :: 0 <= k < |schedule| ==> schedule[k].0 != i
      modifies this
      ensures Valid() && |attempts| == old(|attempts|) && attempts[i] == old(attempts[i])
    {
      var k := 0;
      while k < |schedule|
        invariant 0 <= k <= |schedule|
        invariant Valid() && |attempts| == old(|attempts|) && attempts[i] == old(attempts[i])
      {
        Step(schedule[k].0, schedule[k].1);
        k := k + 1;
      }
    }

    /** `try_acquire`: load, compare-exchange, retry. `meanwhile[k]` is what others do between
        the `k`-th load and its compare-exchange; once they are quiet the loop ends. */
    method TryAcquire(i: nat, meanwhile: seq<Schedule>)
      requires Valid() && i < |attempts| && attempts[i] == FRESH
      requires forall k, m :: 0 <= k < |meanwhile| && 0 <= m < |meanwhile[k]| ==> meanwhile[k][m].0 != i
      modifies this
      ensures Valid() && |attempts| == old(|attempts|)
      ensures attempts[i].caller.Spawning? || attempts[i].caller == Returned(InFlight)
      ensures attempts[i].taken == if attempts[i].caller.Spawning? then 1 else 0
      ensures meanwhile == [] ==> (attempts[i].caller.Spawning? <==> old(current) < max)
      ensures meanwhile == [] ==> current == old(current) + attempts[i].taken
    {
      var k := 0;
      while true
        invariant 0 <= k && Valid() && |attempts| == old(|attempts|) && attempts[i] == FRESH
        invariant meanwhile == [] ==> k == 0 && current == old(current)
        decreases |meanwhile| - k
      {
        Step(i, Load);
        if attempts[i].caller.Returned? {
          return;
        }
        if k < |meanwhile| {
          Others(i, meanwhile[k]);
        }
        Step(i, Exchange);
        if attempts[i].caller.Spawning? {
          return;
        }
        k := k + 1;
      }
    }
  }
}
