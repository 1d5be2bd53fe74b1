/** Reloading the configuration: src/reload.rs with the start-up of src/main.rs. */
module Reload {
  import opened Wrappers
  import Strings
  import opened Routing
  import opened Canonicity
  import opened Hosts
  import opened Limiter
  import opened Fetches

  /** What one start-up or reload meets: how this instance reads a text into a configuration,
      whether start-up gets past its settings and listeners, whether the accept loops still
      listen for new tables, what others wrote to the hosts file since, and whether it can be
      read and written. */
  datatype Env = Env(read: string -> Option<FileConfig>, starts: bool, receivers: bool,
                     edit: Option<string>, writable: bool)

  /** What reloads change; `hosts` is the text of the hosts file when it is managed. */
  datatype Live<+P> = Live(published: Runtime<P>, lastYaml: FileConfig, hosts: Option<string>)

  datatype Process<+P> = Starting(hosts: Option<string>) | Stopped | Serving(live: Live<P>)

  // ---------------------------------------------------------------- one reload

  /** The configuration a fetch result stands for, if it is accepted. */
  function Accepted<P>(r: FetchResult, env: Env, parse: string -> Option<P>): Option<FileConfig> {
    if !r.Fetched? then None
    else
      match env.read(r.text)
      case None => None
      case Some(yaml) => if Build(yaml, parse).Ok? then Some(yaml) else None
  }

  /** A configuration is taken exactly when it was fetched, could be read, and is acceptable. */
  lemma AcceptedExactly<P>(r: FetchResult, env: Env, parse: string -> Option<P>, yaml: FileConfig)
    ensures Accepted(r, env, parse) == Some(yaml)
       <==> r.Fetched? && env.read(r.text) == Some(yaml) && Acceptable(yaml, parse)
  {
    hide Build;
    if r.Fetched? && env.read(r.text) == Some(yaml) {
      TableRoutesAsDocumented(yaml, parse);
    }
  }

  function Applied(hosts: Option<string>, ip: string, names: seq<string>, writable: bool): Option<string> {
    if hosts.None? || !writable then hosts else Some(Synced(hosts.value, ip, names))
  }

  /** The hosts file after others wrote to it. */
  function Edited(hosts: Option<string>, edit: Option<string>): Option<string> {
    if hosts.Some? && edit.Some? then edit else hosts
  }

  function ReloadStep<P>(s: Live<P>, r: FetchResult, env: Env, parse: string -> Option<P>, ip: string): Live<P> {
    match Accepted(r, env, parse)
    case None => s.(hosts := Edited(s.hosts, env.edit))
    case Some(yaml) =>
      var runtime := Build(yaml, parse).value;
      var hosts := Applied(Edited(s.hosts, env.edit), ip, runtime.hostnames, env.writable);
      if s.published.feed == runtime.feed then Live(s.published, yaml, hosts)
      else if env.receivers then Live(runtime, yaml, hosts)
      else s.(hosts := hosts)
  }

  function StartStep<P>(hosts: Option<string>, r: FetchResult, env: Env, parse: string -> Option<P>, ip: string)
    : Process<P>
  {
    match Accepted(r, env, parse)
    case None => Stopped
    case Some(yaml) =>
      var runtime := Build(yaml, parse).value;
      var written := Applied(Edited(hosts, env.edit), ip, runtime.hostnames, env.writable);
      if env.starts then Serving(Live(runtime, yaml, written)) else Stopped
  }

  /** The published table carries the fingerprint of the last configuration and routes as it does. */
  ghost predicate Consistent<P>(s: Live<P>, parse: string -> Option<P>) {
    && Build(s.lastYaml, parse).Ok?
    && s.published.feed == Feed(s.lastYaml)
    && forall host :: s.published.router.Lookup(host) == Build(s.lastYaml, parse).value.router.Lookup(host)
  }

  /** The hosts text is the original with one block of these names, however many blocks it held
      in between; only a newline flip leaves a trace. */
  ghost predicate ListsOnly(hosts: Option<string>, original: Option<string>, ip: string, names: seq<string>) {
    && (hosts.Some? <==> original.Some?)
    && (hosts.Some? ==>
          if NewlineFlips(original.value) then
            || hosts.value == Replaced(original.value, RenderedBlock(ip, names, "\n"))
            || hosts.value == Replaced(original.value, RenderedBlock(ip, names, "\r\n"))
          else hosts.value == Synced(original.value, ip, names))
  }

  lemma TableNamesAreClean<P>(yaml: FileConfig, parse: string -> Option<P>)
    requires Build(yaml, parse).Ok?
    ensures CleanNames(Build(yaml, parse).value.hostnames)
  {
    HostnamesAreTheKeys(yaml, parse);
    var names := Build(yaml, parse).value.hostnames;
    forall i | 0 <= i < |names|
      ensures CleanText(names[i])
    {
      HostnamesAreClean(names[i]);
    }
  }

  lemma SyncedAgain(original: string, ip: string, names: seq<string>, nl: string, newer: seq<string>)
    requires CleanText(ip) && CleanNames(names) && IsNewline(nl)
    ensures var text := Replaced(original, RenderedBlock(ip, names, nl));
      Synced(text, ip, newer) == Replaced(original, RenderedBlock(ip, newer, Newline(text)))
  {
    var text := Replaced(original, RenderedBlock(ip, names, nl));
    LaterBlockAbsorbsEarlier(original, ip, names, nl, RenderedBlock(ip, newer, Newline(text)));
  }

  /** Syncing newer names forgets the older ones. */
  lemma ListsOnlyNewer(hosts: Option<string>, original: Option<string>, ip: string,
                       names: seq<string>, newer: seq<string>)
    requires CleanText(ip) && CleanNames(names) && ListsOnly(hosts, original, ip, names)
    ensures ListsOnly(Applied(hosts, ip, newer, true), original, ip, newer)
  {
    if hosts.Some? {
      if NewlineFlips(original.value) {
        var nl := if hosts.value == Replaced(original.value, RenderedBlock(ip, names, "\n")) then "\n" else "\r\n";
        SyncedAgain(original.value, ip, names, nl, newer);
      } else {
        SyncedAgain(original.value, ip, names, Newline(original.value), newer);
        NewlineOfSynced(original.value, ip, names);
      }
    }
  }

  lemma ReloadKeepsConsistent<P>(s: Live<P>, r: FetchResult, env: Env, parse: string -> Option<P>, ip: string)
    requires Consistent(s, parse)
    ensures Consistent(ReloadStep(s, r, env, parse, ip), parse)
  {
    var yaml := Accepted(r, env, parse);
    if yaml.Some? {
      TableRoutesAsDocumented(yaml.value, parse);
      TableRoutesAsDocumented(s.lastYaml, parse);
      if s.published.feed == Build(yaml.value, parse).value.feed {
        SameFeedSameTable(s.lastYaml, yaml.value, parse);
      }
    }
  }

  // ---------------------------------------------------------------- whole runs

  /** The process consumes one fetch result. */
  function Take<P>(p: Process<P>, r: FetchResult, env: Env, parse: string -> Option<P>, ip: string): Process<P> {
    match p
    case Starting(hosts) => StartStep(hosts, r, env, parse, ip)
    case Stopped => Stopped
    case Serving(live) => Serving(ReloadStep(live, r, env, parse, ip))
  }

  function TakeAll<P>(hosts: Option<string>, rs: seq<FetchResult>, envs: seq<Env>,
                      parse: string -> Option<P>, ip: string)
    : Process<P>
    requires |rs| == |envs|
    decreases |rs|
  {
    if rs == [] then Starting(hosts)
    else
      var n := |rs| - 1;
      Take(TakeAll(hosts, rs[..n], envs[..n], parse, ip), rs[n], envs[n], parse, ip)
  }

  /** The newest accepted configuration that could be published, or needed not be, however many
      failed fetches, unreadable texts and rejected configurations came after it. */
  function LastServed<P>(rs: seq<FetchResult>, envs: seq<Env>, parse: string -> Option<P>): Option<FileConfig>
    requires |rs| == |envs|
    decreases |rs|
  {
    if rs == [] then None
    else
      var n := |rs| - 1;
      var before := LastServed(rs[..n], envs[..n], parse);
      match Accepted(rs[n], envs[n], parse)
      case None => before
      case Some(yaml) =>
        if before.None? || envs[n].receivers || Feed(before.value) == Feed(yaml) then Some(yaml) else before
  }

  /** The newest accepted configuration, published or not. */
  function LastGood<P>(rs: seq<FetchResult>, envs: seq<Env>, parse: string -> Option<P>): Option<FileConfig>
    requires |rs| == |envs|
    decreases |rs|
  {
    if rs == [] then None
    else
      var n := |rs| - 1;
      var newest := Accepted(rs[n], envs[n], parse);
      if newest.Some? then newest else LastGood(rs[..n], envs[..n], parse)
  }

  /** The newest accepted configuration at which the hosts file could be written, if nobody
      else has written to it since. */
  function LastSynced<P>(rs: seq<FetchResult>, envs: seq<Env>, parse: string -> Option<P>): Option<FileConfig>
    requires |rs| == |envs|
    decreases |rs|
  {
    if rs == [] then None
    else
      var n := |rs| - 1;
      var newest := Accepted(rs[n], envs[n], parse);
      if newest.Some? && envs[n].writable then newest
      else if envs[n].edit.Some? then None
      else LastSynced(rs[..n], envs[..n], parse)
  }

  /** What others last wrote to the hosts file. */
  function LastEdit(hosts: Option<string>, envs: seq<Env>): Option<string> {
    if envs == [] then hosts else Edited(LastEdit(hosts, envs[..|envs| - 1]), envs[|envs| - 1].edit)
  }

  lemma {:induction false} RunsServeConsistently<P>(hosts: Option<string>, rs: seq<FetchResult>, envs: seq<Env>,
                                                    parse: string -> Option<P>, ip: string)
    requires |rs| == |envs|
    ensures var p := TakeAll(hosts, rs, envs, parse, ip);
      && (p.Starting? <==> rs == [])
      && (p.Serving? <==> rs != [] && envs[0].starts && Accepted(rs[0], envs[0], parse).Some?)
      && (p.Serving? ==> Consistent(p.live, parse))
    decreases |rs|
  {
    if rs != [] {
      var n := |rs| - 1;
      RunsServeConsistently(hosts, rs[..n], envs[..n], parse, ip);
      var p := TakeAll(hosts, rs[..n], envs[..n], parse, ip);
      if p.Serving? {
        ReloadKeepsConsistent(p.live, rs[n], envs[n], parse, ip);
      } else if p.Starting? && Accepted(rs[n], envs[n], parse).Some? {
        TableRoutesAsDocumented(Accepted(rs[n], envs[n], parse).value, parse);
      }
    }
  }

  /** The hosts text lists the names of the configuration last synced and no others, and is the
      original when there is none. */
  ghost predicate ListsSynced<P>(hosts: Option<string>, original: Option<string>, ip: string,
                                 synced: Option<FileConfig>, parse: string -> Option<P>)
  {
    match synced
    case None => hosts == original
    case Some(yaml) => Build(yaml, parse).Ok? && ListsOnly(hosts, original, ip, Build(yaml, parse).value.hostnames)
  }

  lemma EditedListsSynced<P>(hosts: Option<string>, original: Option<string>, ip: string, synced: Option<FileConfig>,
                             parse: string -> Option<P>, edit: Option<string>)
    requires ListsSynced(hosts, original, ip, synced, parse)
    ensures ListsSynced(Edited(hosts, edit), Edited(original, edit), ip, if edit.Some? then None else synced, parse)
  {
    if synced.Some? {
      hide Build;
      assert hosts.Some? <==> original.Some?;
    }
  }

  lemma FirstSync(original: Option<string>, ip: string, names: seq<string>)
    ensures ListsOnly(Applied(original, ip, names, true), original, ip, names)
  {
  }

  /** One more accepted configuration, whether or not its sync succeeds. */
  lemma AppliedListsSynced<P>(hosts: Option<string>, original: Option<string>, ip: string, synced: Option<FileConfig>,
                              parse: string -> Option<P>, newest: FileConfig, writable: bool)
    requires ListsSynced(hosts, original, ip, synced, parse) && CleanText(ip) && Build(newest, parse).Ok?
    ensures ListsSynced(Applied(hosts, ip, Build(newest, parse).value.hostnames, writable), original, ip,
                        if writable then Some(newest) else synced, parse)
  {
    hide Build, ListsOnly;
    var names := Build(newest, parse).value.hostnames;
    if writable {
      if synced.None? {
        FirstSync(original, ip, names);
      } else {
        TableNamesAreClean(synced.value, parse);
        ListsOnlyNewer(hosts, original, ip, Build(synced.value, parse).value.hostnames, names);
      }
    }
  }

  ghost predicate Serves<P>(live: Live<P>, served: Option<FileConfig>, synced: Option<FileConfig>,
                            original: Option<string>, parse: string -> Option<P>, ip: string)
  {
    && served == Some(live.lastYaml)
    && Consistent(live, parse)
    && ListsSynced(live.hosts, original, ip, synced, parse)
  }

  lemma ConsistentRoutes<P>(s: Live<P>, parse: string -> Option<P>)
    requires Consistent(s, parse)
    ensures forall host :: RouteOf(s.lastYaml, parse, host) == Some(s.published.router.Lookup(host))
  {
    TableRoutesAsDocumented(s.lastYaml, parse);
  }

  lemma FeedOfPublished<P>(s: Live<P>, parse: string -> Option<P>)
    requires Consistent(s, parse)
    ensures s.published.feed == Feed(s.lastYaml)
  {
  }

  lemma ReloadServes<P>(s: Live<P>, r: FetchResult, env: Env, parse: string -> Option<P>, ip: string,
                        synced: Option<FileConfig>, original: Option<string>)
    requires Serves(s, Some(s.lastYaml), synced, original, parse, ip) && CleanText(ip)
    ensures var newest := Accepted(r, env, parse);
      var served := if newest.Some? && (env.receivers || Feed(s.lastYaml) == Feed(newest.value)) then newest
                    else Some(s.lastYaml);
      var kept := if env.edit.Some? then None else synced;
      Serves(ReloadStep(s, r, env, parse, ip), served, if newest.Some? && env.writable then newest else kept,
             Edited(original, env.edit), parse, ip)
  {
    hide ListsSynced, Applied, Edited, Consistent;
    ReloadKeepsConsistent(s, r, env, parse, ip);
    EditedListsSynced(s.hosts, original, ip, synced, parse, env.edit);
    var kept := if env.edit.Some? then None else synced;
    var newest := Accepted(r, env, parse);
    if newest.Some? {
      TableRoutesAsDocumented(newest.value, parse);
      AppliedListsSynced(Edited(s.hosts, env.edit), Edited(original, env.edit), ip, kept, parse, newest.value,
                         env.writable);
      FeedOfPublished(s, parse);
    }
  }

  lemma NothingSynced<P>(hosts: Option<string>, ip: string, parse: string -> Option<P>)
    ensures ListsSynced(hosts, hosts, ip, None, parse)
  {
  }

  lemma StartServes<P>(hosts: Option<string>, r: FetchResult, env: Env, parse: string -> Option<P>, ip: string)
    requires StartStep(hosts, r, env, parse, ip).Serving? && CleanText(ip)
    ensures var newest := Accepted(r, env, parse);
      && newest.Some?
      && Serves(StartStep(hosts, r, env, parse, ip).live, newest, if env.writable then newest else None,
                Edited(hosts, env.edit), parse, ip)
  {
    hide ListsSynced, Applied, Edited;
    var newest := Accepted(r, env, parse);
    TableRoutesAsDocumented(newest.value, parse);
    var found := Edited(hosts, env.edit);
    NothingSynced(found, ip, parse);
    AppliedListsSynced(found, found, ip, None, parse, newest.value, env.writable);
  }

  lemma ServedIsLast<P>(live: Live<P>, rs: seq<FetchResult>, envs: seq<Env>, parse: string -> Option<P>, ip: string,
                        original: Option<string>)
    requires |rs| == |envs|
    requires Serves(live, LastServed(rs, envs, parse), LastSynced(rs, envs, parse), original, parse, ip)
    ensures LastServed(rs, envs, parse) == Some(live.lastYaml)
  {
  }

  /** After any run of start-up and reloads the process serves the newest accepted configuration
      that it could publish: it routes every host as that configuration does. The hosts file is
      what others last wrote to it, with the names of the newest configuration synced since, and
      no others. */
  lemma {:induction false} ServesTheLastGood<P>(hosts: Option<string>, rs: seq<FetchResult>, envs: seq<Env>,
                                                parse: string -> Option<P>, ip: string)
    requires |rs| == |envs| && CleanText(ip) && TakeAll(hosts, rs, envs, parse, ip).Serving?
    ensures Serves(TakeAll(hosts, rs, envs, parse, ip).live, LastServed(rs, envs, parse), LastSynced(rs, envs, parse),
                   LastEdit(hosts, envs), parse, ip)
    decreases |rs|
  {
    hide Serves, ReloadStep, StartStep;
    RunsServeConsistently(hosts, rs, envs, parse, ip);
    var n := |rs| - 1;
    var before := TakeAll(hosts, rs[..n], envs[..n], parse, ip);
    RunsServeConsistently(hosts, rs[..n], envs[..n], parse, ip);
    if before.Serving? {
      ServesTheLastGood(hosts, rs[..n], envs[..n], parse, ip);
      var original := LastEdit(hosts, envs[..n]);
      ServedIsLast(before.live, rs[..n], envs[..n], parse, ip, original);
      ReloadServes(before.live, rs[n], envs[n], parse, ip, LastSynced(rs[..n], envs[..n], parse), original);
    } else {
      StartServes(hosts, rs[n], envs[n], parse, ip);
      assert rs[..n] == [];
    }
  }

  /** While the accept loops listen, what is served is the newest accepted configuration; while
      the hosts file can be written and nobody else does, so is what is synced. */
  lemma {:induction false} UndisturbedServesTheNewest<P>(rs: seq<FetchResult>, envs: seq<Env>,
                                                         parse: string -> Option<P>)
    requires |rs| == |envs|
    ensures (forall i :: 0 <= i < |envs| ==> envs[i].receivers) ==>
      LastServed(rs, envs, parse) == LastGood(rs, envs, parse)
    ensures (forall i :: 0 <= i < |envs| ==> envs[i].writable && envs[i].edit.None?) ==>
      LastSynced(rs, envs, parse) == LastGood(rs, envs, parse)
    decreases |rs|
  {
    hide Accepted;
    if rs != [] {
      var n := |rs| - 1;
      UndisturbedServesTheNewest(rs[..n], envs[..n], parse);
      assert forall i :: 0 <= i < n ==> envs[..n][i] == envs[i];
    }
  }

  lemma ListedNamesAreNormal<P>(yaml: FileConfig, parse: string -> Option<P>,
                                name: string, spelled: string, dots: string)
    requires Build(yaml, parse).Ok? && name in Build(yaml, parse).value.hostnames
    requires Strings.Lower(spelled) == Strings.Lower(name) && forall i :: 0 <= i < |dots| ==> dots[i] == '.'
    ensures Normal(spelled + dots) == Strings.Lower(name)
    ensures Strings.Lower(name) in Build(yaml, parse).value.router.rules
  {
    HostnamesAreTheKeys(yaml, parse);
    SpelledNamesAreNormal(name, spelled, dots);
  }

  /** In every run a listed name, in any case and with any number of trailing dots, is served by
      its own rule when the configuration served has one, and by the default otherwise; it has
      one whenever that configuration is the one last synced. */
  lemma ListedNamesAreServed<P>(hosts: Option<string>, rs: seq<FetchResult>, envs: seq<Env>, parse: string -> Option<P>,
                                ip: string, listed: FileConfig, name: string, spelled: string, dots: string)
    requires |rs| == |envs| && CleanText(ip) && TakeAll(hosts, rs, envs, parse, ip).Serving?
    requires LastSynced(rs, envs, parse) == Some(listed)
    requires Build(listed, parse).Ok? && name in Build(listed, parse).value.hostnames
    requires Strings.Lower(spelled) == Strings.Lower(name) && forall i :: 0 <= i < |dots| ==> dots[i] == '.'
    ensures LastServed(rs, envs, parse).Some? && Build(LastServed(rs, envs, parse).value, parse).Ok?
    ensures var router := Build(LastServed(rs, envs, parse).value, parse).value.router;
      var key := Strings.Lower(name);
      && TakeAll(hosts, rs, envs, parse, ip).live.published.router.Lookup(spelled + dots)
         == (if key in router.rules then router.rules[key] else router.default)
      && (LastServed(rs, envs, parse) == Some(listed) ==> key in router.rules)
  {
    hide ListsSynced, Build, TakeAll, LastServed, LastSynced, Normal;
    ServesTheLastGood(hosts, rs, envs, parse, ip);
    ListedNamesAreNormal(listed, parse, name, spelled, dots);
  }

  // ---------------------------------------------------------------- with the fetches

  /** Either a fetch makes an atomic step, or the process consumes the result it waits for.
      Fetches start one after another; abandoned threads of earlier ones may still step. */
  datatype Event = Fetch(i: nat, choice: Choice) | Consume(env: Env)

  datatype System<+P> = System(fetches: State, results: seq<FetchResult>, envs: seq<Env>, process: Process<P>)

  function Boot<P>(max: nat, n: nat, hosts: Option<string>): System<P> {
    System(Start(max, n), [], [], Starting(hosts))
  }

  function Advance<P>(s: System<P>, e: Event, parse: string -> Option<P>, ip: string): System<P> {
    var k := |s.results|;
    match e
    case Fetch(i, c) => if i <= k then s.(fetches := Next(s.fetches, i, c)) else s
    case Consume(env) =>
      if k >= |s.fetches.attempts| || !s.fetches.attempts[k].caller.Returned? then s
      else
        var r := s.fetches.attempts[k].caller.result;
        System(s.fetches, s.results + [r], s.envs + [env], Take(s.process, r, env, parse, ip))
  }

  function Execute<P>(s: System<P>, events: seq<Event>, parse: string -> Option<P>, ip: string): System<P>
    decreases |events|
  {
    if events == [] then s else Execute(Advance(s, events[0], parse, ip), events[1..], parse, ip)
  }

  /** The process is where the results consumed so far put it, and those are still, and for
      good, what the fetches returned. */
  ghost predicate Settled<P>(s: System<P>, hosts: Option<string>, parse: string -> Option<P>, ip: string) {
    && Invariant(s.fetches) && SeenBelowMax(s.fetches)
    && |s.results| == |s.envs| <= |s.fetches.attempts|
    && (forall k :: 0 <= k < |s.results| ==> s.fetches.attempts[k].caller == Returned(s.results[k]))
    && s.process == TakeAll(hosts, s.results, s.envs, parse, ip)
  }

  lemma AdvanceKeepsSettled<P>(s: System<P>, e: Event, hosts: Option<string>, parse: string -> Option<P>, ip: string)
    requires Settled(s, hosts, parse, ip)
    ensures Settled(Advance(s, e, parse, ip), hosts, parse, ip)
  {
    hide Invariant, SeenBelowMax, Take, ReloadStep, Build;
    match e
    case Fetch(i, c) =>
      StepKeepsInvariant(s.fetches, i, c);
      assert i < |s.results| ==>
        Act(s.fetches.attempts[i], s.fetches.max, s.fetches.current, c).0.caller == s.fetches.attempts[i].caller;
    case Consume(env) =>
      var t := Advance(s, e, parse, ip);
      if t.results != s.results {
        assert t.results[..|s.results|] == s.results && t.envs[..|s.results|] == s.envs;
      }
  }

  lemma {:induction false} ExecuteKeepsSettled<P>(s: System<P>, events: seq<Event>, hosts: Option<string>,
                                                  parse: string -> Option<P>, ip: string)
    requires Settled(s, hosts, parse, ip)
    ensures Settled(Execute(s, events, parse, ip), hosts, parse, ip)
    decreases |events|
  {
    if events != [] {
      AdvanceKeepsSettled(s, events[0], hosts, parse, ip);
      ExecuteKeepsSettled(Advance(s, events[0], parse, ip), events[1..], hosts, parse, ip);
    }
  }

  /** In every interleaving of fetch threads, timeouts and reloads the process depends on the
      fetches only through the results they had returned, those results stay what they are, and
      what is served is consistent throughout. */
  lemma RunsFollowResults<P>(max: nat, n: nat, hosts: Option<string>, events: seq<Event>,
                                  parse: string -> Option<P>, ip: string)
    ensures var s := Execute(Boot(max, n, hosts), events, parse, ip);
      && |s.results| == |s.envs| <= |s.fetches.attempts|
      && (forall k :: 0 <= k < |s.results| ==> s.fetches.attempts[k].caller == Returned(s.results[k]))
      && s.process == TakeAll(hosts, s.results, s.envs, parse, ip)
      && (s.process.Serving? ==> Consistent(s.process.live, parse))
      && s.fetches.current == Guards(s.fetches.attempts) <= s.fetches.max
  {
    FreshHaveNoGuards(n);
    var s: System<P> := Boot(max, n, hosts);
    ExecuteKeepsSettled(s, events, hosts, parse, ip);
    var t := Execute(s, events, parse, ip);
    RunsServeConsistently(hosts, t.results, t.envs, parse, ip);
  }

  /** The steps of the fetches in a run of the system. */
  function FetchSteps<P>(s: System<P>, events: seq<Event>, parse: string -> Option<P>, ip: string): Schedule
    decreases |events|
  {
    if events == [] then []
    else
      var later := FetchSteps(Advance(s, events[0], parse, ip), events[1..], parse, ip);
      match events[0]
      case Fetch(i, c) => if i <= |s.results| then [(i, c)] + later else later
      case Consume(_) => later
  }

  lemma {:induction false} FetchesRun<P>(s: System<P>, events: seq<Event>, parse: string -> Option<P>, ip: string)
    ensures Execute(s, events, parse, ip).fetches == Run(s.fetches, FetchSteps(s, events, parse, ip))
    decreases |events|
  {
    if events != [] {
      hide Take, Next;
      var t := Advance(s, events[0], parse, ip);
      FetchesRun(t, events[1..], parse, ip);
      match events[0]
      case Fetch(i, c) => RunStep(s.fetches, i, c, FetchSteps(t, events[1..], parse, ip));
      case Consume(_) =>
    }
  }

  /** What the process consumes is what the threads of its fetches delivered: in every run, the
      `k`-th result is a text exactly when the thread of the `k`-th fetch ended with it while
      its caller waited, and a timeout exactly when the timeout came first. */
  lemma ResultsAreDelivered<P>(max: nat, n: nat, hosts: Option<string>, events: seq<Event>,
                               parse: string -> Option<P>, ip: string, k: nat, text: string)
    requires k < |Execute(Boot(max, n, hosts), events, parse, ip).results|
    ensures k < n
    ensures var steps := FetchSteps(Boot(max, n, hosts), events, parse, ip);
      var result := Execute(Boot(max, n, hosts), events, parse, ip).results[k];
      && (result == Fetched(text) <==>
            exists i: nat, j: nat ::
              i < j && DeliversAt(Start(max, n), steps, k, i, Some(text)) && TakesAt(steps, k, j, Receive))
      && (result == TimedOut <==> exists i: nat :: ExpiresAt(Start(max, n), steps, k, i))
  {
    hide Execute, FetchSteps, Run, DeliversAt, ExpiresAt, TakesAt;
    var s: System<P> := Boot(max, n, hosts);
    FreshHaveNoGuards(n);
    RunsFollowResults(max, n, hosts, events, parse, ip);
    FetchesRun(s, events, parse, ip);
    RunKeepsMax(Start(max, n), FetchSteps(s, events, parse, ip));
    FetchedExactly(Start(max, n), FetchSteps(s, events, parse, ip), k, Some(text));
    TimedOutExactly(Start(max, n), FetchSteps(s, events, parse, ip), k);
  }

  predicate OnlyFetches(events: seq<Event>) {
    forall i :: 0 <= i < |events| ==> events[i].Fetch?
  }

  /** While nothing is consumed, the process stands still and a promised result stays promised. */
  lemma {:induction false} FetchesKeepPromise<P>(s: System<P>, events: seq<Event>, k: nat, r: FetchResult,
                                                 parse: string -> Option<P>, ip: string)
    requires OnlyFetches(events) && k < |s.fetches.attempts| && Promised(s.fetches.attempts[k], r)
    ensures var t := Execute(s, events, parse, ip);
      && t.results == s.results && t.envs == s.envs && t.process == s.process
      && k < |t.fetches.attempts| && Promised(t.fetches.attempts[k], r)
    decreases |events|
  {
    if events != [] {
      var t := Advance(s, events[0], parse, ip);
      FetchesKeepPromise(t, events[1..], k, r, parse, ip);
    }
  }

  lemma {:induction false} ReturnsKeep<P>(s: System<P>, events: seq<Event>, k: nat, r: FetchResult,
                                          parse: string -> Option<P>, ip: string)
    requires OnlyFetches(events) && k < |s.fetches.attempts| && s.fetches.attempts[k].caller == Returned(r)
    ensures var t := Execute(s, events, parse, ip);
      && t.results == s.results && t.envs == s.envs && t.process == s.process
      && k < |t.fetches.attempts| && t.fetches.attempts[k].caller == Returned(r)
    decreases |events|
  {
    if events != [] {
      ReturnsKeep(Advance(s, events[0], parse, ip), events[1..], k, r, parse, ip);
    }
  }

  lemma {:induction false} ExecuteAppends<P>(s: System<P>, a: seq<Event>, b: seq<Event>, parse: string -> Option<P>,
                                             ip: string)
    ensures Execute(s, a + b, parse, ip) == Execute(Execute(s, a, parse, ip), b, parse, ip)
    decreases |a|
  {
    hide Advance;
    if a == [] {
      assert a + b == b;
    } else {
      assert (a + b)[1..] == a[1..] + b;
      ExecuteAppends(Advance(s, a[0], parse, ip), a[1..], b, parse, ip);
    }
  }

  lemma ExecuteOne<P>(s: System<P>, e: Event, parse: string -> Option<P>, ip: string)
    ensures Execute(s, [e], parse, ip) == Advance(s, e, parse, ip)
  {
    hide Advance;
  }

  /** From the delivery to the reload: the thread ends with a text while its caller waits, the
      caller receives it, and the process consumes it, with steps of other fetches in between. */
  function Delivery(k: nat, text: string, meanwhile: seq<Event>, later: seq<Event>, env: Env): seq<Event> {
    [Event.Fetch(k, Choice.Fetch(Some(text)))] + meanwhile + [Event.Fetch(k, Receive)] + later + [Consume(env)]
  }

  lemma DeliveryIsTaken<P>(s: System<P>, text: string, meanwhile: seq<Event>, later: seq<Event>, env: Env,
                           parse: string -> Option<P>, ip: string)
    requires Invariant(s.fetches) && |s.results| < |s.fetches.attempts| && OnlyFetches(meanwhile) && OnlyFetches(later)
    requires var a := s.fetches.attempts[|s.results|]; a.caller.Waiting? && a.thread.Fetching?
    ensures var t := Execute(s, Delivery(|s.results|, text, meanwhile, later, env), parse, ip);
      && t.results == s.results + [Fetched(text)] && t.envs == s.envs + [env]
      && t.process == Take(s.process, Fetched(text), env, parse, ip)
  {
    hide Execute, Take;
    var k := |s.results|;
    var deliver, receive := [Event.Fetch(k, Choice.Fetch(Some(text)))], [Event.Fetch(k, Receive)];
    ExecuteAppends(s, deliver + meanwhile + receive + later, [Consume(env)], parse, ip);
    ExecuteAppends(s, deliver + meanwhile + receive, later, parse, ip);
    ExecuteAppends(s, deliver + meanwhile, receive, parse, ip);
    ExecuteAppends(s, deliver, meanwhile, parse, ip);
    ExecuteOne(s, deliver[0], parse, ip);
    var s1 := Execute(s, deliver, parse, ip);
    FetchesKeepPromise(s1, meanwhile, k, Fetched(text), parse, ip);
    var s2 := Execute(s1, meanwhile, parse, ip);
    ExecuteOne(s2, receive[0], parse, ip);
    var s3 := Execute(s2, receive, parse, ip);
    assert s3.fetches.attempts[k].caller == Returned(Fetched(text));
    ReturnsKeep(s3, later, k, Fetched(text), parse, ip);
    ExecuteOne(Execute(s3, later, parse, ip), Consume(env), parse, ip);
  }

  /** What taking up an acceptable configuration means: unless it cannot be published, every host
      gets its documented route; the hosts file, if it is managed and can be written, lists its
      names. */
  ghost predicate TakenUp<P>(before: Live<P>, after: Live<P>, yaml: FileConfig, env: Env, parse: string -> Option<P>,
                             ip: string)
  {
    var found := if env.edit.Some? && before.hosts.Some? then env.edit else before.hosts;
    && Build(yaml, parse).Ok?
    && (env.receivers || Feed(before.lastYaml) == Feed(yaml) ==>
          && after.lastYaml == yaml
          && forall host :: RouteOf(yaml, parse, host) == Some(after.published.router.Lookup(host)))
    && after.hosts == if found.Some? && env.writable
                      then Some(Synced(found.value, ip, Build(yaml, parse).value.hostnames)) else found
  }

  lemma AcceptableIsTakenUp<P>(s: Live<P>, text: string, env: Env, yaml: FileConfig, parse: string -> Option<P>,
                               ip: string)
    requires Consistent(s, parse) && env.read(text) == Some(yaml) && Acceptable(yaml, parse)
    ensures TakenUp(s, ReloadStep(s, Fetched(text), env, parse, ip), yaml, env, parse, ip)
  {
    hide Build, Acceptable, RouteOf, Consistent;
    AcceptedExactly(Fetched(text), env, parse, yaml);
    ReloadKeepsConsistent(s, Fetched(text), env, parse, ip);
    ConsistentRoutes(ReloadStep(s, Fetched(text), env, parse, ip), parse);
    FeedOfPublished(s, parse);
    TableRoutesAsDocumented(yaml, parse);
  }

  /** A delivered text that reads as an acceptable configuration is taken up, and any other text
      leaves the table and the last configuration as they are. */
  lemma DeliveredIsServed<P>(s: System<P>, text: string, meanwhile: seq<Event>, later: seq<Event>, env: Env,
                             parse: string -> Option<P>, ip: string)
    requires Invariant(s.fetches) && |s.results| < |s.fetches.attempts| && OnlyFetches(meanwhile) && OnlyFetches(later)
    requires var a := s.fetches.attempts[|s.results|]; a.caller.Waiting? && a.thread.Fetching?
    requires s.process.Serving? && Consistent(s.process.live, parse)
    ensures var t := Execute(s, Delivery(|s.results|, text, meanwhile, later, env), parse, ip);
      && t.process.Serving?
      && if env.read(text).Some? && Acceptable(env.read(text).value, parse)
         then TakenUp(s.process.live, t.process.live, env.read(text).value, env, parse, ip)
         else t.process.live == s.process.live.(hosts := Edited(s.process.live.hosts, env.edit))
  {
    DeliveryIsTaken(s, text, meanwhile, later, env, parse, ip);
    hide Execute, Build, Acceptable, Consistent, TakenUp;
    var yaml := env.read(text);
    if yaml.Some? {
      AcceptedExactly(Fetched(text), env, parse, yaml.value);
      if Acceptable(yaml.value, parse) {
        AcceptableIsTakenUp(s.process.live, text, env, yaml.value, parse, ip);
      }
    }
  }

  /** Steps that deliver a text, or the lack of one, after the caller has returned. */
  ghost predicate DeliverLate<P>(s: System<P>, a: Event, b: Event) {
    && a.Fetch? && b.Fetch? && a.i == b.i && a.choice.Fetch? && b.choice.Fetch?
    && a.i < |s.fetches.attempts| && s.fetches.attempts[a.i].caller.Returned?
  }

  /** Two runs that differ in nothing but what is delivered late. */
  ghost predicate AlikeButLate<P>(s: System<P>, a: seq<Event>, b: seq<Event>, parse: string -> Option<P>, ip: string)
    decreases |a|
  {
    && |a| == |b|
    && (a != [] ==>
          && (a[0] == b[0] || DeliverLate(s, a[0], b[0]))
          && AlikeButLate(Advance(s, a[0], parse, ip), a[1..], b[1..], parse, ip))
  }

  lemma LateDeliveryIsIgnored<P>(s: System<P>, a: Event, b: Event, parse: string -> Option<P>, ip: string)
    requires Invariant(s.fetches) && DeliverLate(s, a, b)
    ensures Advance(s, a, parse, ip) == Advance(s, b, parse, ip)
  {
    var attempt := s.fetches.attempts[a.i];
    assert Shaped(attempt);
    assert Act(attempt, s.fetches.max, s.fetches.current, a.choice)
        == Act(attempt, s.fetches.max, s.fetches.current, b.choice);
  }

  lemma FetchesAreInvariant<P>(s: System<P>, hosts: Option<string>, parse: string -> Option<P>, ip: string)
    requires Settled(s, hosts, parse, ip)
    ensures Invariant(s.fetches)
  {
  }

  lemma {:induction false} LateDeliveriesAreIgnored<P>(s: System<P>, a: seq<Event>, b: seq<Event>,
                                                       hosts: Option<string>, parse: string -> Option<P>, ip: string)
    requires Settled(s, hosts, parse, ip) && AlikeButLate(s, a, b, parse, ip)
    ensures Execute(s, a, parse, ip) == Execute(s, b, parse, ip)
    decreases |a|
  {
    hide Settled, Invariant, Advance, DeliverLate;
    if a != [] {
      if a[0] != b[0] {
        FetchesAreInvariant(s, hosts, parse, ip);
        LateDeliveryIsIgnored(s, a[0], b[0], parse, ip);
      }
      AdvanceKeepsSettled(s, a[0], hosts, parse, ip);
      LateDeliveriesAreIgnored(Advance(s, a[0], parse, ip), a[1..], b[1..], hosts, parse, ip);
    }
  }

  /** Whatever texts arrive after their timeouts, the whole system ends in the same state. */
  lemma LateTextsAreIgnored<P>(max: nat, n: nat, hosts: Option<string>, a: seq<Event>, b: seq<Event>,
                               parse: string -> Option<P>, ip: string)
    requires AlikeButLate(Boot(max, n, hosts), a, b, parse, ip)
    ensures Execute(Boot(max, n, hosts), a, parse, ip) == Execute(Boot(max, n, hosts), b, parse, ip)
  {
    FreshHaveNoGuards(n);
    LateDeliveriesAreIgnored(Boot(max, n, hosts), a, b, hosts, parse, ip);
  }

  // ---------------------------------------------------------------- in place

  /** What `reload_once` holds: the published table, the last configuration and the hosts file. */
  class Reloader<P> {
    const parse: string -> Option<P>
    const ip: string
    var published: Runtime<P>
    var lastYaml: FileConfig
    var hosts: Option<string>

    constructor (parse: string -> Option<P>, ip: string, runtime: Runtime<P>, yaml: FileConfig, hosts: Option<string>)
      requires Build(yaml, parse) == Ok(runtime)
      ensures this.parse == parse && this.ip == ip
      ensures Snapshot() == Live(runtime, yaml, hosts) && Valid()
    {
      this.parse, this.ip, published, lastYaml, this.hosts := parse, ip, runtime, yaml, hosts;
      new;
      TableRoutesAsDocumented(yaml, parse);
    }

    ghost function Snapshot(): Live<P>
      reads this
    {
      Live(published, lastYaml, hosts)
    }

    ghost predicate Valid()
      reads this
    {
      Consistent(Snapshot(), parse)
    }

    /** `apply_hosts`: off, or one sync of the file. */
    method ApplyHosts(names: seq<string>, writable: bool)
      modifies this`hosts
      ensures hosts == Applied(old(hosts), ip, names, writable)
    {
      if hosts.None? || !writable {
        return;
      }
      var updated := SyncHosts(hosts.value, ip, names);
      if updated.Some? {
        hosts := updated;
      }
    }

    /** `reload_once`, given what the fetch returned and what others wrote to the hosts file. */
    method ReloadOnce(fetched: FetchResult, env: Env)
      requires Valid()
      modifies this
      ensures Snapshot() == ReloadStep(old(Snapshot()), fetched, env, parse, ip)
      ensures Valid()
    {
      ghost var before := Snapshot();
      ReloadKeepsConsistent(before, fetched, env, parse, ip);
      hosts := Edited(hosts, env.edit);
      if !fetched.Fetched? {
        return;
      }
      var yaml := env.read(fetched.text);
      if yaml.None? {
        return;
      }
      var runtime := FromYaml(yaml.value, parse);
      if runtime.Err? {
        return;
      }
      var routingChanged := published.feed != runtime.value.feed;
      ApplyHosts(runtime.value.hostnames, env.writable);
      if routingChanged {
        if !env.receivers {
          return;
        }
        published := runtime.value;
      }
      lastYaml := yaml.value;
    }
  }
}
