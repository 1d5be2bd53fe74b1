/** What one fetch returns, told by the steps that its own caller and thread took in a run:
    `fetch_with_hard_timeout` of src/reload.rs, lines 123 to 160. */
module Fetches {
  import opened Wrappers
  import opened Limiter

  lemma {:induction false} RunAppends(s: State, a: Schedule, b: Schedule)
    ensures Run(s, a + b) == Run(Run(s, a), b)
    decreases |a|
  {
    if a == [] {
      assert a + b == b;
    } else {
      assert (a + b)[1..] == a[1..] + b;
      RunAppends(Next(s, a[0].0, a[0].1), a[1..], b);
    }
  }

  /** What holds of an attempt and survives each of its own steps survives every run: the steps
      of other attempts do not touch it. */
  lemma {:induction false} RunKeeps(s: State, i: nat, schedule: Schedule, holds: Attempt -> bool,
                                    allowed: Choice -> bool)
    requires i < |s.attempts| && holds(s.attempts[i])
    requires forall k :: 0 <= k < |schedule| && schedule[k].0 == i ==> allowed(schedule[k].1)
    requires forall a: Attempt, max: nat, current: nat, c: Choice ::
      holds(a) && allowed(c) ==> holds(Act(a, max, current, c).0)
    ensures i < |Run(s, schedule).attempts| && holds(Run(s, schedule).attempts[i])
    decreases |schedule|
  {
    hide Act;
    if schedule != [] {
      var (j, c) := schedule[0];
      assert forall k :: 0 <= k < |schedule| - 1 ==> schedule[1..][k] == schedule[k + 1];
      RunKeeps(Next(s, j, c), i, schedule[1..], holds, allowed);
    }
  }

  // ---------------------------------------------------------------- from the steps to the result

  /** What the caller gets when the thread ends with a text or with an error. */
  function Delivered(outcome: Option<string>): FetchResult {
    if outcome.Some? then Fetched(outcome.value) else FetchFailed
  }

  /** The caller has this result or will receive it. */
  predicate Promised(a: Attempt, r: FetchResult) {
    (a.caller.Waiting? && a.channel == Holding(r)) || a.caller == Returned(r)
  }

  lemma PromiseIsKept(s: State, i: nat, r: FetchResult, schedule: Schedule)
    requires i < |s.attempts| && Promised(s.attempts[i], r)
    ensures i < |Run(s, schedule).attempts| && Promised(Run(s, schedule).attempts[i], r)
  {
    RunKeeps(s, i, schedule, a => Promised(a, r), c => true);
  }

  /** A thread that delivers while the caller waits decides what the caller returns, whatever
      else happens before and after the caller receives it, an expired timeout included. */
  lemma DeliveredIsReturned(s: State, i: nat, outcome: Option<string>, meanwhile: Schedule, later: Schedule)
    requires Invariant(s) && i < |s.attempts|
    requires s.attempts[i].caller.Waiting? && s.attempts[i].thread.Fetching?
    ensures var t := Run(s, [(i, Fetch(outcome))] + (meanwhile + ([(i, Receive)] + later)));
      i < |t.attempts| && t.attempts[i].caller == Returned(Delivered(outcome))
  {
    var r := Delivered(outcome);
    var s1 := Next(s, i, Fetch(outcome));
    RunStep(s, i, Fetch(outcome), meanwhile + ([(i, Receive)] + later));
    RunAppends(s1, meanwhile, [(i, Receive)] + later);
    PromiseIsKept(s1, i, r, meanwhile);
    var s2 := Run(s1, meanwhile);
    RunStep(s2, i, Receive, later);
    ResultsAreFinal(Next(s2, i, Receive), i, later);
  }

  predicate Dropped(a: Attempt) {
    (a.caller.Waiting? && a.channel.SenderGone?) || a.caller == Returned(ThreadDropped)
  }

  /** The sender is gone, or about to be. */
  predicate Unwound(a: Attempt) {
    (a.caller.Waiting? && a.thread.Unwinding? && a.channel.Empty?) || Dropped(a)
  }

  lemma DropIsReported(s: State, i: nat, between: Schedule, later: Schedule)
    requires i < |s.attempts| && Unwound(s.attempts[i])
    ensures var t := Run(s, [(i, DropSender)] + (between + ([(i, Receive)] + later)));
      i < |t.attempts| && t.attempts[i].caller == Returned(ThreadDropped)
  {
    hide Run;
    var s1 := Next(s, i, DropSender);
    RunStep(s, i, DropSender, between + ([(i, Receive)] + later));
    RunAppends(s1, between, [(i, Receive)] + later);
    RunKeeps(s1, i, between, Dropped, c => true);
    var s2 := Run(s1, between);
    RunStep(s2, i, Receive, later);
    ResultsAreFinal(Next(s2, i, Receive), i, later);
  }

  /** The thread panics while the caller waits, and its sender is dropped before the timeout: the
      caller reports a dropped thread. */
  lemma PanicIsReported(s: State, i: nat, meanwhile: Schedule, between: Schedule, later: Schedule)
    requires Invariant(s) && i < |s.attempts|
    requires s.attempts[i].caller.Waiting? && s.attempts[i].thread.Fetching?
    requires (i, Expire) !in meanwhile
    ensures var t := Run(s, [(i, Panic)] + (meanwhile + ([(i, DropSender)] + (between + ([(i, Receive)] + later)))));
      i < |t.attempts| && t.attempts[i].caller == Returned(ThreadDropped)
  {
    hide Run;
    var s1 := Next(s, i, Panic);
    var rest := [(i, DropSender)] + (between + ([(i, Receive)] + later));
    RunStep(s, i, Panic, meanwhile + rest);
    RunAppends(s1, meanwhile, rest);
    RunKeeps(s1, i, meanwhile, Unwound, c => c != Expire);
    DropIsReported(Run(s1, meanwhile), i, between, later);
  }

  /** The timeout expires while the thread has neither delivered nor dropped its sender: the
      caller reports a timeout, whatever the thread does later. */
  lemma TimeoutIsReported(s: State, i: nat, later: Schedule)
    requires Invariant(s) && i < |s.attempts|
    requires s.attempts[i].caller.Waiting? && (s.attempts[i].thread.Fetching? || s.attempts[i].thread.Unwinding?)
    ensures var t := Run(s, [(i, Expire)] + later);
      i < |t.attempts| && t.attempts[i].caller == Returned(TimedOut)
  {
    RunStep(s, i, Expire, later);
    ResultsAreFinal(Next(s, i, Expire), i, later);
  }

  /** A new fetch that finds a free slot and is not overtaken gets what its thread delivers. */
  lemma FreshFetchReturns(s: State, i: nat, outcome: Option<string>, before: Schedule, meanwhile: Schedule,
                          later: Schedule)
    requires Invariant(s) && SeenBelowMax(s) && i < |s.attempts| && s.attempts[i] == FRESH
    requires Guards(s.attempts) < s.max
    requires forall k :: 0 <= k < |before| ==> before[k].0 != i
    ensures var delivers := [(i, Fetch(outcome))] + (meanwhile + ([(i, Receive)] + later));
      var t := Run(s, [(i, Load)] + ([(i, Exchange)] + ([(i, SpawnSucceeds)] + (before + delivers))));
      i < |t.attempts| && t.attempts[i].caller == Returned(Delivered(outcome))
  {
    var delivers := [(i, Fetch(outcome))] + (meanwhile + ([(i, Receive)] + later));
    var s1 := Next(s, i, Load);
    var s2 := Next(s1, i, Exchange);
    var s3 := Next(s2, i, SpawnSucceeds);
    RunStep(s, i, Load, [(i, Exchange)] + ([(i, SpawnSucceeds)] + (before + delivers)));
    RunStep(s1, i, Exchange, [(i, SpawnSucceeds)] + (before + delivers));
    RunStep(s2, i, SpawnSucceeds, before + delivers);
    StepKeepsInvariant(s, i, Load);
    StepKeepsInvariant(s1, i, Exchange);
    StepKeepsInvariant(s2, i, SpawnSucceeds);
    RunAppends(s3, before, delivers);
    RunKeepsInvariant(s3, before);
    RunKeeps(s3, i, before, (a: Attempt) => a.caller.Waiting? && a.thread.Fetching?, c => false);
    DeliveredIsReturned(Run(s3, before), i, outcome, meanwhile, later);
  }

  // ---------------------------------------------------------------- from the result to the steps

  /** Attempt `i` before step `k` of a run. */
  function Seen(s: State, schedule: Schedule, i: nat, k: nat): Attempt
    requires i < |s.attempts| && k <= |schedule|
  {
    RunKeepsMax(s, schedule[..k]);
    Run(s, schedule[..k]).attempts[i]
  }

  lemma SeenStarts(s: State, schedule: Schedule, i: nat)
    requires i < |s.attempts|
    ensures Seen(s, schedule, i, 0) == s.attempts[i]
  {
    assert schedule[..0] == [];
  }

  /** One step of a run, seen from attempt `i`. */
  lemma SeenSteps(s: State, schedule: Schedule, i: nat, k: nat)
    requires i < |s.attempts| && k < |schedule|
    ensures var before := Run(s, schedule[..k]);
      && |before.attempts| == |s.attempts|
      && Run(s, schedule[..k + 1]) == Next(before, schedule[k].0, schedule[k].1)
      && before.attempts[i] == Seen(s, schedule, i, k)
      && Seen(s, schedule, i, k + 1)
         == if schedule[k].0 == i then Act(before.attempts[i], before.max, before.current, schedule[k].1).0
            else before.attempts[i]
  {
    var (j, c) := schedule[k];
    assert schedule[..k + 1] == schedule[..k] + [(j, c)];
    RunAppends(s, schedule[..k], [(j, c)]);
    assert [(j, c)] + [] == [(j, c)];
    RunStep(Run(s, schedule[..k]), j, c, []);
    RunKeepsMax(s, schedule[..k]);
    RunKeepsMax(s, schedule[..k + 1]);
  }

  lemma SeenIsShaped(s: State, schedule: Schedule, i: nat, k: nat)
    requires Invariant(s) && SeenBelowMax(s) && i < |s.attempts| && k <= |schedule|
    ensures Shaped(Seen(s, schedule, i, k)) && Invariant(Run(s, schedule[..k]))
  {
    RunKeepsInvariant(s, schedule[..k]);
    RunKeepsMax(s, schedule[..k]);
  }

  /** The step before `k` after which something first held. */
  lemma {:induction false} FirstHeld(s: State, schedule: Schedule, i: nat, n: nat, holds: Attempt -> bool)
    returns (k: nat)
    requires i < |s.attempts| && n <= |schedule| && !holds(s.attempts[i]) && holds(Seen(s, schedule, i, n))
    ensures k < n && !holds(Seen(s, schedule, i, k)) && holds(Seen(s, schedule, i, k + 1)) && schedule[k].0 == i
    decreases n
  {
    hide Act, Seen;
    SeenStarts(s, schedule, i);
    if holds(Seen(s, schedule, i, n - 1)) {
      k := FirstHeld(s, schedule, i, n - 1, holds);
    } else {
      SeenSteps(s, schedule, i, n - 1);
      k := n - 1;
    }
  }

  ghost predicate TakesAt(schedule: Schedule, i: nat, k: nat, c: Choice) {
    k < |schedule| && schedule[k] == (i, c)
  }

  ghost predicate WaitsAt(s: State, schedule: Schedule, i: nat, k: nat)
    requires i < |s.attempts|
  {
    k < |schedule| && Seen(s, schedule, i, k).caller.Waiting?
  }

  /** The thread takes step `k` of the run, ending its fetch like this while the caller waits. */
  ghost predicate DeliversAt(s: State, schedule: Schedule, i: nat, k: nat, outcome: Option<string>)
    requires i < |s.attempts|
  {
    TakesAt(schedule, i, k, Fetch(outcome)) && WaitsAt(s, schedule, i, k) && Seen(s, schedule, i, k).thread.Fetching?
  }

  ghost predicate PanicsAt(s: State, schedule: Schedule, i: nat, k: nat)
    requires i < |s.attempts|
  {
    TakesAt(schedule, i, k, Panic) && WaitsAt(s, schedule, i, k) && Seen(s, schedule, i, k).thread.Fetching?
  }

  ghost predicate DropsAt(s: State, schedule: Schedule, i: nat, k: nat)
    requires i < |s.attempts|
  {
    TakesAt(schedule, i, k, DropSender) && WaitsAt(s, schedule, i, k) && Seen(s, schedule, i, k).thread.Unwinding?
  }

  /** The timeout expires while the thread has neither delivered nor dropped its sender. */
  ghost predicate ExpiresAt(s: State, schedule: Schedule, i: nat, k: nat)
    requires i < |s.attempts|
  {
    && TakesAt(schedule, i, k, Expire) && WaitsAt(s, schedule, i, k)
    && (Seen(s, schedule, i, k).thread.Fetching? || Seen(s, schedule, i, k).thread.Unwinding?)
  }

  lemma SeenLast(s: State, schedule: Schedule, i: nat)
    requires i < |s.attempts|
    ensures i < |Run(s, schedule).attempts| && Seen(s, schedule, i, |schedule|) == Run(s, schedule).attempts[i]
  {
    assert schedule[..|schedule|] == schedule;
    RunKeepsMax(s, schedule);
  }

  /** A result was returned at some step, from the state before it. */
  lemma ReturnedWhen(s: State, schedule: Schedule, i: nat, r: FetchResult) returns (m: nat)
    requires Invariant(s) && SeenBelowMax(s) && i < |s.attempts| && s.attempts[i] == FRESH
    requires Seen(s, schedule, i, |schedule|).caller == Returned(r)
    ensures m < |schedule| && Shaped(Seen(s, schedule, i, m))
    ensures r.Fetched? || r.FetchFailed? ==>
      WaitsAt(s, schedule, i, m) && TakesAt(schedule, i, m, Receive) && Seen(s, schedule, i, m).channel == Holding(r)
    ensures r.ThreadDropped? ==>
      WaitsAt(s, schedule, i, m) && TakesAt(schedule, i, m, Receive) && Seen(s, schedule, i, m).channel.SenderGone?
    ensures r.TimedOut? ==> ExpiresAt(s, schedule, i, m)
  {
    hide Run;
    m := FirstHeld(s, schedule, i, |schedule|, (a: Attempt) => a.caller == Returned(r));
    SeenSteps(s, schedule, i, m);
    SeenIsShaped(s, schedule, i, m);
  }

  lemma DeliveredWhen(s: State, schedule: Schedule, i: nat, r: FetchResult, m: nat) returns (k: nat)
    requires Invariant(s) && SeenBelowMax(s) && i < |s.attempts| && s.attempts[i] == FRESH && m <= |schedule|
    requires Seen(s, schedule, i, m).channel == Holding(r)
    ensures k < m && exists o: Option<string> :: DeliversAt(s, schedule, i, k, o) && Delivered(o) == r
  {
    hide Run;
    k := FirstHeld(s, schedule, i, m, (a: Attempt) => a.channel == Holding(r));
    SeenSteps(s, schedule, i, k);
    SeenIsShaped(s, schedule, i, k);
    var o := schedule[k].1.text;
    assert DeliversAt(s, schedule, i, k, o);
  }

  lemma DroppedWhen(s: State, schedule: Schedule, i: nat, m: nat) returns (j: nat, k: nat)
    requires Invariant(s) && SeenBelowMax(s) && i < |s.attempts| && s.attempts[i] == FRESH && m <= |schedule|
    requires Seen(s, schedule, i, m).channel.SenderGone?
    ensures j < k < m && PanicsAt(s, schedule, i, j) && DropsAt(s, schedule, i, k)
  {
    hide Run;
    k := FirstHeld(s, schedule, i, m, (a: Attempt) => a.channel.SenderGone?);
    SeenSteps(s, schedule, i, k);
    SeenIsShaped(s, schedule, i, k);
    j := FirstHeld(s, schedule, i, k, (a: Attempt) => a.thread.Unwinding? && a.caller.Waiting?);
    SeenSteps(s, schedule, i, j);
    SeenIsShaped(s, schedule, i, j);
  }

  lemma CutSchedule(schedule: Schedule, k: nat, m: nat)
    requires k < m < |schedule|
    ensures schedule
         == schedule[..k] + ([schedule[k]] + (schedule[k + 1..m] + ([schedule[m]] + schedule[m + 1..])))
  {
  }

  /** A fetch returns a text, or an error, exactly when its own thread delivered it while the
      caller waited and the caller then received it. */
  lemma FetchedExactly(s: State, schedule: Schedule, i: nat, outcome: Option<string>)
    requires Invariant(s) && SeenBelowMax(s) && i < |s.attempts| && s.attempts[i] == FRESH
    ensures i < |Run(s, schedule).attempts|
    ensures Run(s, schedule).attempts[i].caller == Returned(Delivered(outcome))
       <==> exists k: nat, m: nat ::
              k < m && DeliversAt(s, schedule, i, k, outcome) && TakesAt(schedule, i, m, Receive)
  {
    hide Run, Invariant;
    SeenLast(s, schedule, i);
    if Run(s, schedule).attempts[i].caller == Returned(Delivered(outcome)) {
      var m := ReturnedWhen(s, schedule, i, Delivered(outcome));
      var k := DeliveredWhen(s, schedule, i, Delivered(outcome), m);
      assert DeliversAt(s, schedule, i, k, outcome);
    }
    forall k: nat, m: nat
      | k < m && DeliversAt(s, schedule, i, k, outcome) && TakesAt(schedule, i, m, Receive)
      ensures Run(s, schedule).attempts[i].caller == Returned(Delivered(outcome))
    {
      var later := schedule[m + 1..];
      CutSchedule(schedule, k, m);
      RunAppends(s, schedule[..k], [schedule[k]] + (schedule[k + 1..m] + ([schedule[m]] + later)));
      SeenSteps(s, schedule, i, k);
      SeenIsShaped(s, schedule, i, k);
      DeliveredIsReturned(Run(s, schedule[..k]), i, outcome, schedule[k + 1..m], later);
    }
  }

  /** A fetch reports a timeout exactly when the timeout expired while its thread had neither
      delivered nor dropped its sender. */
  lemma TimedOutExactly(s: State, schedule: Schedule, i: nat)
    requires Invariant(s) && SeenBelowMax(s) && i < |s.attempts| && s.attempts[i] == FRESH
    ensures i < |Run(s, schedule).attempts|
    ensures Run(s, schedule).attempts[i].caller == Returned(TimedOut)
       <==> exists k: nat :: ExpiresAt(s, schedule, i, k)
  {
    hide Run, Invariant;
    SeenLast(s, schedule, i);
    if Run(s, schedule).attempts[i].caller == Returned(TimedOut) {
      var k := ReturnedWhen(s, schedule, i, TimedOut);
    }
    forall k: nat | ExpiresAt(s, schedule, i, k)
      ensures Run(s, schedule).attempts[i].caller == Returned(TimedOut)
    {
      var later := schedule[k + 1..];
      assert schedule == schedule[..k] + ([schedule[k]] + later);
      RunAppends(s, schedule[..k], [schedule[k]] + later);
      SeenSteps(s, schedule, i, k);
      SeenIsShaped(s, schedule, i, k);
      TimeoutIsReported(Run(s, schedule[..k]), i, later);
    }
  }

  /** A fetch reports a dropped thread exactly when its thread panicked and dropped its sender
      while the caller waited, and the caller then noticed. */
  lemma DroppedExactly(s: State, schedule: Schedule, i: nat)
    requires Invariant(s) && SeenBelowMax(s) && i < |s.attempts| && s.attempts[i] == FRESH
    ensures i < |Run(s, schedule).attempts|
    ensures Run(s, schedule).attempts[i].caller == Returned(ThreadDropped)
       <==> exists j: nat, k: nat, m: nat ::
              && j < k < m && PanicsAt(s, schedule, i, j) && DropsAt(s, schedule, i, k)
              && TakesAt(schedule, i, m, Receive)
  {
    hide Run, Invariant;
    SeenLast(s, schedule, i);
    if Run(s, schedule).attempts[i].caller == Returned(ThreadDropped) {
      var m := ReturnedWhen(s, schedule, i, ThreadDropped);
      var j, k := DroppedWhen(s, schedule, i, m);
    }
    forall j: nat, k: nat, m: nat
      | && j < k < m && PanicsAt(s, schedule, i, j) && DropsAt(s, schedule, i, k)
        && TakesAt(schedule, i, m, Receive)
      ensures Run(s, schedule).attempts[i].caller == Returned(ThreadDropped)
    {
      var later := schedule[m + 1..];
      CutSchedule(schedule, k, m);
      RunAppends(s, schedule[..k], [schedule[k]] + (schedule[k + 1..m] + ([schedule[m]] + later)));
      SeenSteps(s, schedule, i, k);
      SeenIsShaped(s, schedule, i, k);
      DropIsReported(Run(s, schedule[..k]), i, schedule[k + 1..m], later);
    }
  }

  lemma ReturnIsFinal(s: State, schedule: Schedule, i: nat, k: nat)
    requires i < |s.attempts| && k <= |schedule| && Seen(s, schedule, i, k).caller.Returned?
    ensures i < |Run(s, schedule).attempts|
    ensures Run(s, schedule).attempts[i].caller == Seen(s, schedule, i, k).caller
  {
    assert schedule == schedule[..k] + schedule[k..];
    RunAppends(s, schedule[..k], schedule[k..]);
    RunKeepsMax(s, schedule[..k]);
    ResultsAreFinal(Run(s, schedule[..k]), i, schedule[k..]);
  }

  /** The fetch loads the counter while live guards hold every slot. */
  ghost predicate FullAt(s: State, schedule: Schedule, i: nat, k: nat)
    requires i < |s.attempts|
  {
    && TakesAt(schedule, i, k, Load) && Seen(s, schedule, i, k).caller.Loading?
    && Guards(Run(s, schedule[..k]).attempts) == s.max
  }

  ghost predicate SpawnFailsAt(s: State, schedule: Schedule, i: nat, k: nat)
    requires i < |s.attempts|
  {
    TakesAt(schedule, i, k, SpawnFails) && Seen(s, schedule, i, k).caller.Spawning?
  }

  lemma EarlyReturns(s: State, schedule: Schedule, i: nat, k: nat)
    requires Invariant(s) && SeenBelowMax(s) && i < |s.attempts| && k < |schedule|
    requires !Seen(s, schedule, i, k).caller.Returned?
    ensures FullAt(s, schedule, i, k) <==> Seen(s, schedule, i, k + 1).caller == Returned(InFlight)
    ensures SpawnFailsAt(s, schedule, i, k) <==> Seen(s, schedule, i, k + 1).caller == Returned(ThreadSpawn)
  {
    hide Run;
    SeenSteps(s, schedule, i, k);
    SeenIsShaped(s, schedule, i, k);
    RunKeepsMax(s, schedule[..k]);
  }

  /** A fetch is refused exactly when it loaded the counter while live guards held every slot,
      and reports that no thread could be spawned exactly when the spawn failed. */
  lemma RefusedExactly(s: State, schedule: Schedule, i: nat)
    requires Invariant(s) && SeenBelowMax(s) && i < |s.attempts| && s.attempts[i] == FRESH
    ensures i < |Run(s, schedule).attempts|
    ensures Run(s, schedule).attempts[i].caller == Returned(InFlight)
       <==> exists k: nat :: FullAt(s, schedule, i, k)
    ensures Run(s, schedule).attempts[i].caller == Returned(ThreadSpawn)
       <==> exists k: nat :: SpawnFailsAt(s, schedule, i, k)
  {
    SeenLast(s, schedule, i);
    var result := Run(s, schedule).attempts[i].caller;
    hide Run, Invariant, SeenBelowMax, Seen;
    if result == Returned(InFlight) || result == Returned(ThreadSpawn) {
      SeenStarts(s, schedule, i);
      var k := FirstHeld(s, schedule, i, |schedule|, (a: Attempt) => a.caller == result);
      if Seen(s, schedule, i, k).caller.Returned? {
        ReturnIsFinal(s, schedule, i, k);
      } else {
        EarlyReturns(s, schedule, i, k);
      }
    }
    forall k: nat | FullAt(s, schedule, i, k) || SpawnFailsAt(s, schedule, i, k)
      ensures FullAt(s, schedule, i, k) ==> result == Returned(InFlight)
      ensures SpawnFailsAt(s, schedule, i, k) ==> result == Returned(ThreadSpawn)
    {
      EarlyReturns(s, schedule, i, k);
      ReturnIsFinal(s, schedule, i, k + 1);
    }
  }
}
