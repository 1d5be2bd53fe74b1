/** The routing table and its fingerprint: src/router.rs. */
module Routing {
  import opened Wrappers
  import opened Search
  import opened Strings
  import opened Targets
  import opened Tables

  /** A parsed configuration: the entries of its two hash maps, in the order this instance
      iterates them. */
  datatype FileConfig = FileConfig(proxies: Entries<string>, rules: Entries<seq<string>>) {
    /** Map keys are distinct, and the parser refuses empty proxy lists. */
    ghost predicate Valid() {
      && (forall i, j :: 0 <= i < j < |proxies| ==> proxies[i].0 != proxies[j].0)
      && (forall i, j :: 0 <= i < j < |rules| ==> rules[i].0 != rules[j].0)
      && (forall i :: 0 <= i < |rules| ==> rules[i].1 != [])
    }
  }

  datatype ConfigError =
    BadProxy(name: string) | UnknownProxy(name: string) | InvalidHostname(key: string) | NoDefault | EmptyDefault

  datatype Hop<+P> = Hop(name: string, proxy: P)

  function TrimDots(host: string): (r: string)
    ensures r <= host && (forall i :: |r| <= i < |host| ==> host[i] == '.') && (r != "" ==> r[|r| - 1] != '.')
  {
    if host != "" && host[|host| - 1] == '.' then TrimDots(host[..|host| - 1]) else host
  }

  function Normal(host: string): string {
    Lower(TrimDots(host))
  }

  datatype Router<+P> = Router(rules: map<string, seq<Hop<P>>>, default: seq<Hop<P>>) {
    function Lookup(host: string): seq<Hop<P>> {
      var key := Normal(host);
      if key in rules then rules[key] else default
    }
  }

  /** What the hasher is fed: `str::hash` gives one token, the length prefix of a list another. */
  datatype Token = Str(text: string) | Len(n: nat)

  datatype Runtime<+P> = Runtime(router: Router<P>, hostnames: seq<string>, feed: seq<Token>)

  // ---------------------------------------------------------------- the fingerprint

  function LowerRules(rules: Entries<seq<string>>): (r: Entries<seq<string>>)
    ensures |r| == |rules| && forall i :: 0 <= i < |rules| ==> r[i] == (Lower(rules[i].0), rules[i].1)
  {
    seq(|rules|, i requires 0 <= i < |rules| => (Lower(rules[i].0), rules[i].1))
  }

  function Strs(texts: seq<string>): (r: seq<Token>)
    ensures |r| == |texts| && forall i :: 0 <= i < |texts| ==> r[i] == Str(texts[i])
  {
    seq(|texts|, i requires 0 <= i < |texts| => Str(texts[i]))
  }

  function ProxyFeed(proxies: Entries<string>): seq<Token> {
    if proxies == [] then [] else [Str(proxies[0].0), Str(proxies[0].1)] + ProxyFeed(proxies[1..])
  }

  function RuleFeed(rules: Entries<seq<string>>): seq<Token> {
    if rules == [] then [] else [Str(rules[0].0), Len(|rules[0].1|)] + Strs(rules[0].1) + RuleFeed(rules[1..])
  }

  function Feed(cfg: FileConfig): seq<Token> {
    ProxyFeed(Sort(cfg.proxies)) + RuleFeed(Sort(LowerRules(cfg.rules)))
  }

  /** The order in which the hasher is fed, on one proxy and one rule with one hop. */
  lemma FeedOfOne(name: string, url: string, key: string, hop: string)
    ensures Feed(FileConfig([(name, url)], [(key, [hop])]))
         == [Str(name), Str(url), Str(Lower(key)), Len(1), Str(hop)]
  {
    var proxies: Entries<string> := [(name, url)];
    var rules := LowerRules([(key, [hop])]);
    assert proxies[1..] == [] && rules[1..] == [] && rules == [(Lower(key), [hop])];
    assert Sort(proxies) == proxies && Sort(rules) == rules;
    assert ProxyFeed(proxies) == [Str(name), Str(url)];
    assert RuleFeed(rules) == [Str(Lower(key)), Len(1)] + Strs([hop]) + [];
  }

  lemma ProxyFeedStep(proxies: Entries<string>, i: nat)
    requires i < |proxies|
    ensures ProxyFeed(proxies[i..]) == [Str(proxies[i].0)] + [Str(proxies[i].1)] + ProxyFeed(proxies[i + 1..])
  {
    assert proxies[i..][1..] == proxies[i + 1..];
  }

  lemma RuleFeedStep(rules: Entries<seq<string>>, i: nat)
    requires i < |rules|
    ensures RuleFeed(rules[i..])
         == [Str(rules[i].0)] + ([Len(|rules[i].1|)] + Strs(rules[i].1)) + RuleFeed(rules[i + 1..])
  {
    var names := rules[i].1;
    assert rules[i..][1..] == rules[i + 1..];
    assert [Str(rules[i].0), Len(|names|)] + Strs(names) == [Str(rules[i].0)] + ([Len(|names|)] + Strs(names));
  }

  lemma FedTwo(fed: seq<Token>, a: seq<Token>, b: seq<Token>, rest: seq<Token>)
    ensures fed + (a + b + rest) == fed + a + b + rest
  {
    Regroup(fed, a + b, rest);
    Regroup(fed, a, b);
  }

  /** `routing_fingerprint`: feeds a hasher; the final 64-bit value is taken to tell feeds apart. */
  method RoutingFingerprint(cfg: FileConfig) returns (hasher: seq<Token>)
    ensures hasher == Feed(cfg)
  {
    hasher := [];
    var proxies := Sort(cfg.proxies);
    var i := 0;
    while i < |proxies|
      invariant 0 <= i <= |proxies|
      invariant hasher + ProxyFeed(proxies[i..]) == ProxyFeed(proxies)
    {
      ProxyFeedStep(proxies, i);
      FedTwo(hasher, [Str(proxies[i].0)], [Str(proxies[i].1)], ProxyFeed(proxies[i + 1..]));
      hasher := hasher + [Str(proxies[i].0)];
      hasher := hasher + [Str(proxies[i].1)];
      i := i + 1;
    }
    assert hasher == ProxyFeed(proxies) by {
      assert proxies[i..] == [] && hasher + [] == hasher;
    }

    var rules := Sort(LowerRules(cfg.rules));
    ghost var all := Feed(cfg);
    assert rules[0..] == rules;
    i := 0;
    while i < |rules|
      invariant 0 <= i <= |rules|
      invariant hasher + RuleFeed(rules[i..]) == all
    {
      RuleFeedStep(rules, i);
      FedTwo(hasher, [Str(rules[i].0)], [Len(|rules[i].1|)] + Strs(rules[i].1), RuleFeed(rules[i + 1..]));
      hasher := hasher + [Str(rules[i].0)];
      hasher := hasher + ([Len(|rules[i].1|)] + Strs(rules[i].1));
      i := i + 1;
    }
    assert rules[i..] == [] && hasher + [] == hasher;
  }

  lemma {:induction false} RuleFeedTellsApart(a: Entries<seq<string>>, b: Entries<seq<string>>)
    requires RuleFeed(a) == RuleFeed(b)
    ensures a == b
  {
    if a != [] && b != [] {
      var x, y := RuleFeed(a), RuleFeed(b);
      assert x[0] == Str(a[0].0) && y[0] == Str(b[0].0);
      assert x[1] == Len(|a[0].1|) && y[1] == Len(|b[0].1|);
      var n := |a[0].1|;
      assert x[2..2 + n] == Strs(a[0].1) && y[2..2 + n] == Strs(b[0].1);
      forall i | 0 <= i < n
        ensures a[0].1[i] == b[0].1[i]
      {
        assert Strs(a[0].1)[i] == Strs(b[0].1)[i];
      }
      assert a[0].1 == b[0].1;
      assert x[2 + n..] == RuleFeed(a[1..]) && y[2 + n..] == RuleFeed(b[1..]);
      RuleFeedTellsApart(a[1..], b[1..]);
      assert a == [a[0]] + a[1..] && b == [b[0]] + b[1..];
    }
  }

  /** The number of proxies is not fed; the first length token still shows where they end. */
  lemma {:induction false} FeedTellsApart(p1: Entries<string>, r1: Entries<seq<string>>,
                                          p2: Entries<string>, r2: Entries<seq<string>>)
    requires r1 != [] && r2 != []
    requires ProxyFeed(p1) + RuleFeed(r1) == ProxyFeed(p2) + RuleFeed(r2)
    ensures p1 == p2 && r1 == r2
  {
    var x, y := ProxyFeed(p1) + RuleFeed(r1), ProxyFeed(p2) + RuleFeed(r2);
    assert x[1].Len? <==> p1 == [];
    assert y[1].Len? <==> p2 == [];
    if p1 == [] {
      assert x == RuleFeed(r1) && y == RuleFeed(r2);
      RuleFeedTellsApart(r1, r2);
    } else {
      assert x[0] == Str(p1[0].0) && x[1] == Str(p1[0].1);
      assert y[0] == Str(p2[0].0) && y[1] == Str(p2[0].1);
      assert x[2..] == ProxyFeed(p1[1..]) + RuleFeed(r1);
      assert y[2..] == ProxyFeed(p2[1..]) + RuleFeed(r2);
      FeedTellsApart(p1[1..], r1, p2[1..], r2);
      assert p1 == [p1[0]] + p1[1..] && p2 == [p2[0]] + p2[1..];
    }
  }

  // ---------------------------------------------------------------- building the table

  function Resolve<P>(names: seq<string>, proxies: map<string, P>): Result<seq<Hop<P>>, ConfigError> {
    if names == [] then Ok([])
    else if names[0] !in proxies then Err(UnknownProxy(names[0]))
    else
      match Resolve(names[1..], proxies)
      case Ok(hops) => Ok([Hop(names[0], proxies[names[0]])] + hops)
      case Err(e) => Err(e)
  }

  function LoadProxies<P>(entries: Entries<string>, parse: string -> Option<P>, acc: map<string, P>)
    : Result<map<string, P>, ConfigError>
  {
    if entries == [] then Ok(acc)
    else
      match parse(entries[0].1)
      case None => Err(BadProxy(entries[0].0))
      case Some(p) => LoadProxies(entries[1..], parse, acc[entries[0].0 := p])
  }

  /** The loop's variables. */
  datatype Draft<+P> = Draft(rules: map<string, seq<Hop<P>>>, default: Option<seq<Hop<P>>>,
                             hostnames: seq<string>, seen: set<string>)

  function AddRule<P>(rule: (string, seq<string>), proxies: map<string, P>, d: Draft<P>)
    : Result<Draft<P>, ConfigError>
  {
    var key := rule.0;
    var lower := Lower(key);
    if lower != "default" && !IsValidHostname(key) then Err(InvalidHostname(key))
    else
      match Resolve(rule.1, proxies)
      case Err(e) => Err(e)
      case Ok(hops) =>
        if lower == "default" then Ok(d.(default := Some(hops)))
        else Ok(Draft(d.rules[lower := hops], d.default,
                      if lower in d.seen then d.hostnames else d.hostnames + [key], d.seen + {lower}))
  }

  function AddRules<P>(rules: Entries<seq<string>>, proxies: map<string, P>, d: Draft<P>)
    : Result<Draft<P>, ConfigError>
  {
    if rules == [] then Ok(d)
    else
      match AddRule(rules[0], proxies, d)
      case Err(e) => Err(e)
      case Ok(next) => AddRules(rules[1..], proxies, next)
  }

  function Keyed(names: seq<string>): (r: Entries<string>)
    ensures |r| == |names| && forall i :: 0 <= i < |names| ==> r[i] == (Lower(names[i]), names[i])
  {
    seq(|names|, i requires 0 <= i < |names| => (Lower(names[i]), names[i]))
  }

  /** `sort_by_key(to_ascii_lowercase)`. */
  function SortNames(names: seq<string>): seq<string> {
    var sorted := Sort(Keyed(names));
    seq(|sorted|, i requires 0 <= i < |sorted| => sorted[i].1)
  }

  function Finish<P>(cfg: FileConfig, d: Draft<P>): Result<Runtime<P>, ConfigError> {
    match d.default
    case None => Err(NoDefault)
    case Some(hops) =>
      if hops == [] then Err(EmptyDefault)
      else Ok(Runtime(Router(d.rules, hops), SortNames(d.hostnames), Feed(cfg)))
  }

  function Build<P>(cfg: FileConfig, parse: string -> Option<P>): Result<Runtime<P>, ConfigError> {
    match LoadProxies(cfg.proxies, parse, map[])
    case Err(e) => Err(e)
    case Ok(proxies) =>
      match AddRules(cfg.rules, proxies, Draft(map[], None, [], {}))
      case Err(e) => Err(e)
      case Ok(d) => Finish(cfg, d)
  }

  /** `Runtime::from_yaml`: one loop over each map. */
  method FromYaml<P>(cfg: FileConfig, parse: string -> Option<P>) returns (r: Result<Runtime<P>, ConfigError>)
    ensures r == Build(cfg, parse)
  {
    var proxies: map<string, P> := map[];
    var i := 0;
    while i < |cfg.proxies|
      invariant 0 <= i <= |cfg.proxies|
      invariant LoadProxies(cfg.proxies, parse, map[]) == LoadProxies(cfg.proxies[i..], parse, proxies)
    {
      var (name, url) := cfg.proxies[i];
      assert cfg.proxies[i..][1..] == cfg.proxies[i + 1..];
      var p := parse(url);
      if p.None? {
        return Err(BadProxy(name));
      }
      proxies := proxies[name := p.value];
      i := i + 1;
    }

    var rules: map<string, seq<Hop<P>>> := map[];
    var default: Option<seq<Hop<P>>> := None;
    var hostnames: seq<string> := [];
    var seen: set<string> := {};
    ghost var answer := AddRules(cfg.rules, proxies, Draft(map[], None, [], {}));
    i := 0;
    while i < |cfg.rules|
      invariant 0 <= i <= |cfg.rules|
      invariant answer == AddRules(cfg.rules[i..], proxies, Draft(rules, default, hostnames, seen))
    {
      var (key, names) := cfg.rules[i];
      assert cfg.rules[i..][1..] == cfg.rules[i + 1..];
      var lower := Lower(key);
      var hops := Resolve(names, proxies);
      if lower == "default" {
        if hops.Err? {
          return Err(hops.error);
        }
        default := Some(hops.value);
      } else {
        if !IsValidHostname(key) {
          return Err(InvalidHostname(key));
        }
        if hops.Err? {
          return Err(hops.error);
        }
        if lower !in seen {
          seen := seen + {lower};
          hostnames := hostnames + [key];
        }
        assert seen == seen + {lower};
        rules := rules[lower := hops.value];
      }
      i := i + 1;
    }

    if default.None? {
      return Err(NoDefault);
    }
    if default.value == [] {
      return Err(EmptyDefault);
    }
    var feed := RoutingFingerprint(cfg);
    return Ok(Runtime(Router(rules, default.value), SortNames(hostnames), feed));
  }

  // ---------------------------------------------------------------- what the table means

  /** The hops a list of names stands for, read from the entries alone. */
  function Hops<P>(names: seq<string>, proxies: Entries<string>, parse: string -> Option<P>): Option<seq<Hop<P>>> {
    if names == [] then Some([])
    else
      match Last(proxies, names[0])
      case None => None
      case Some(url) =>
        match (parse(url), Hops(names[1..], proxies, parse))
        case (Some(p), Some(rest)) => Some([Hop(names[0], p)] + rest)
        case _ => None
  }

  /** The names of the last rule for the host, or of the last default rule. */
  function RuleFor(rules: Entries<seq<string>>, host: string): Option<seq<string>> {
    var own := Last(LowerRules(rules), Normal(host));
    if own.Some? then own else Last(LowerRules(rules), "default")
  }

  /** The documented route of a host: exact match modulo case, else the default. */
  function RouteOf<P>(cfg: FileConfig, parse: string -> Option<P>, host: string): Option<seq<Hop<P>>> {
    match RuleFor(cfg.rules, host)
    case None => None
    case Some(names) => Hops(names, cfg.proxies, parse)
  }

  ghost predicate Loaded<P>(proxies: Entries<string>, parse: string -> Option<P>, m: map<string, P>) {
    forall name :: match Last(proxies, name)
      case None => name !in m
      case Some(url) => name in m && parse(url) == Some(m[name])
  }

  lemma {:induction false} LoadProxiesLoads<P>(done: Entries<string>, entries: Entries<string>,
                                               parse: string -> Option<P>, acc: map<string, P>)
    requires Loaded(done, parse, acc)
    ensures var r := LoadProxies(entries, parse, acc);
      && (r.Ok? <==> forall i :: 0 <= i < |entries| ==> parse(entries[i].1).Some?)
      && (r.Ok? ==> Loaded(done + entries, parse, r.value))
    decreases |entries|
  {
    if entries == [] {
      assert done + entries == done;
    } else if parse(entries[0].1).Some? {
      var next := acc[entries[0].0 := parse(entries[0].1).value];
      forall name
        ensures match Last(done + [entries[0]], name)
          case None => name !in next
          case Some(url) => name in next && parse(url) == Some(next[name])
      {
        LastOfSnoc(done, entries[0], name);
      }
      LoadProxiesLoads(done + [entries[0]], entries[1..], parse, next);
      assert done + [entries[0]] + entries[1..] == done + entries;
      assert forall i :: 0 < i < |entries| ==> entries[i] == entries[1..][i - 1];
    }
  }

  lemma {:induction false} ResolveMeans<P>(names: seq<string>, proxies: Entries<string>,
                                           parse: string -> Option<P>, m: map<string, P>)
    requires Loaded(proxies, parse, m)
    ensures var h := Hops(names, proxies, parse);
      if h.Some? then Resolve(names, m) == Ok(h.value) else Resolve(names, m).Err?
  {
    if names != [] {
      assert match Last(proxies, names[0])
        case None => names[0] !in m
        case Some(url) => names[0] in m && parse(url) == Some(m[names[0]]);
      ResolveMeans(names[1..], proxies, parse, m);
    }
  }

  /** The draft holds, for each lower-cased key, the hops of its last rule so far. */
  ghost predicate Follows<P>(d: Draft<P>, done: Entries<seq<string>>, proxies: Entries<string>,
                             parse: string -> Option<P>)
  {
    && (d.default == match Last(LowerRules(done), "default")
          case None => None
          case Some(names) => Hops(names, proxies, parse))
    && (d.default.None? ==> Last(LowerRules(done), "default").None?)
    && "default" !in d.rules
    && forall key :: key != "default" ==>
         match Last(LowerRules(done), key)
         case None => key !in d.rules
         case Some(names) => key in d.rules && Hops(names, proxies, parse) == Some(d.rules[key])
  }

  lemma LowerRulesOfSnoc(done: Entries<seq<string>>, rule: (string, seq<string>))
    ensures LowerRules(done + [rule]) == LowerRules(done) + [(Lower(rule.0), rule.1)]
  {
  }

  predicate GoodRule<P>(rule: (string, seq<string>), proxies: Entries<string>, parse: string -> Option<P>) {
    (Lower(rule.0) == "default" || IsValidHostname(rule.0)) && Hops(rule.1, proxies, parse).Some?
  }

  lemma AddRuleFollows<P>(d: Draft<P>, done: Entries<seq<string>>, rule: (string, seq<string>),
                          proxies: Entries<string>, parse: string -> Option<P>, m: map<string, P>)
    requires Loaded(proxies, parse, m) && Follows(d, done, proxies, parse)
    ensures var r := AddRule(rule, m, d);
      && (r.Ok? <==> GoodRule(rule, proxies, parse))
      && (r.Ok? ==> Follows(r.value, done + [rule], proxies, parse))
  {
    ResolveMeans(rule.1, proxies, parse, m);
    LowerRulesOfSnoc(done, rule);
    var e := (Lower(rule.0), rule.1);
    var r := AddRule(rule, m, d);
    LastOfSnoc(LowerRules(done), e, "default");
    if r.Ok? {
      forall key | key != "default"
        ensures match Last(LowerRules(done + [rule]), key)
          case None => key !in r.value.rules
          case Some(names) => key in r.value.rules && Hops(names, proxies, parse) == Some(r.value.rules[key])
      {
        LastOfSnoc(LowerRules(done), e, key);
      }
    }
  }

  lemma {:induction false} AddRulesFollow<P>(d: Draft<P>, done: Entries<seq<string>>, rules: Entries<seq<string>>,
                                             proxies: Entries<string>, parse: string -> Option<P>, m: map<string, P>)
    requires Loaded(proxies, parse, m) && Follows(d, done, proxies, parse)
    ensures var r := AddRules(rules, m, d);
      && (r.Ok? <==> forall i :: 0 <= i < |rules| ==> GoodRule(rules[i], proxies, parse))
      && (r.Ok? ==> Follows(r.value, done + rules, proxies, parse))
    decreases |rules|
  {
    if rules == [] {
      assert done + rules == done;
    } else {
      hide Follows, Loaded, GoodRule;
      AddRuleFollows(d, done, rules[0], proxies, parse, m);
      var next := AddRule(rules[0], m, d);
      if next.Ok? {
        AddRulesFollow(next.value, done + [rules[0]], rules[1..], proxies, parse, m);
        assert done + [rules[0]] + rules[1..] == done + rules;
        assert forall i :: 0 < i < |rules| ==> rules[i] == rules[1..][i - 1];
        assert forall i :: 0 <= i < |rules| - 1 ==> rules[1..][i] == rules[i + 1];
      }
    }
  }

  /** What a configuration needs to be accepted; nothing in it depends on the order. */
  ghost predicate Acceptable<P>(cfg: FileConfig, parse: string -> Option<P>) {
    && (forall i :: 0 <= i < |cfg.proxies| ==> parse(cfg.proxies[i].1).Some?)
    && (forall i :: 0 <= i < |cfg.rules| ==> GoodRule(cfg.rules[i], cfg.proxies, parse))
    && Last(LowerRules(cfg.rules), "default").Some?
    && Last(LowerRules(cfg.rules), "default").value != []
  }

  lemma BuildFollows<P>(cfg: FileConfig, parse: string -> Option<P>) returns (d: Option<Draft<P>>)
    ensures d.Some? ==> Follows(d.value, cfg.rules, cfg.proxies, parse) && Build(cfg, parse) == Finish(cfg, d.value)
    ensures d.None? ==> Build(cfg, parse).Err?
    ensures d.Some? <==>
      && (forall i :: 0 <= i < |cfg.proxies| ==> parse(cfg.proxies[i].1).Some?)
      && (forall i :: 0 <= i < |cfg.rules| ==> GoodRule(cfg.rules[i], cfg.proxies, parse))
  {
    LoadProxiesLoads([], cfg.proxies, parse, map[]);
    assert [] + cfg.proxies == cfg.proxies && [] + cfg.rules == cfg.rules;
    var loaded := LoadProxies(cfg.proxies, parse, map[]);
    d := None;
    if loaded.Ok? {
      var empty: Draft<P> := Draft(map[], None, [], {});
      AddRulesFollow(empty, [], cfg.rules, cfg.proxies, parse, loaded.value);
      var r := AddRules(cfg.rules, loaded.value, empty);
      d := if r.Ok? then Some(r.value) else None;
    }
  }

  lemma HopsKeepNames<P>(names: seq<string>, proxies: Entries<string>, parse: string -> Option<P>)
    requires Hops(names, proxies, parse).Some?
    ensures var h := Hops(names, proxies, parse).value;
      |h| == |names| && forall i :: 0 <= i < |names| ==> h[i].name == names[i]
  {
    if names != [] {
      HopsKeepNames(names[1..], proxies, parse);
      assert forall i :: 0 < i < |names| ==> names[i] == names[1..][i - 1];
    }
  }

  lemma GoodRulesHaveHops<P>(cfg: FileConfig, parse: string -> Option<P>, key: string)
    requires forall i :: 0 <= i < |cfg.rules| ==> GoodRule(cfg.rules[i], cfg.proxies, parse)
    requires Last(LowerRules(cfg.rules), key).Some?
    ensures Hops(Last(LowerRules(cfg.rules), key).value, cfg.proxies, parse).Some?
    ensures Last(LowerRules(cfg.rules), key).value == [] <==>
            Hops(Last(LowerRules(cfg.rules), key).value, cfg.proxies, parse).value == []
  {
    LastIsEntry(LowerRules(cfg.rules), key);
    var names := Last(LowerRules(cfg.rules), key).value;
    var i :| 0 <= i < |LowerRules(cfg.rules)| && LowerRules(cfg.rules)[i] == (key, names);
    assert GoodRule(cfg.rules[i], cfg.proxies, parse);
    HopsKeepNames(names, cfg.proxies, parse);
  }

  /** The loop accepts exactly the acceptable configurations, and its table gives every host
      its documented route: the last of the rules whose keys collide wins. */
  lemma TableRoutesAsDocumented<P>(cfg: FileConfig, parse: string -> Option<P>)
    ensures Build(cfg, parse).Ok? <==> Acceptable(cfg, parse)
    ensures Build(cfg, parse).Ok? ==> Build(cfg, parse).value.feed == Feed(cfg)
    ensures Build(cfg, parse).Ok? ==>
      forall host :: RouteOf(cfg, parse, host) == Some(Build(cfg, parse).value.router.Lookup(host))
  {
    var d := BuildFollows(cfg, parse);
    if d.Some? {
      if Last(LowerRules(cfg.rules), "default").Some? {
        GoodRulesHaveHops(cfg, parse, "default");
      }
      if Build(cfg, parse).Ok? {
        forall host
          ensures RouteOf(cfg, parse, host) == Some(Build(cfg, parse).value.router.Lookup(host))
        {
          var key := Normal(host);
          assert key != "default" ==>
            match Last(LowerRules(cfg.rules), key)
            case None => key !in d.value.rules
            case Some(names) => key in d.value.rules && Hops(names, cfg.proxies, parse) == Some(d.value.rules[key]);
        }
      }
    }
  }

  // ---------------------------------------------------------------- equal fingerprints

  lemma SameEntriesSameHops<P>(names: seq<string>, p1: Entries<string>, p2: Entries<string>, parse: string -> Option<P>)
    requires Sort(p1) == Sort(p2)
    ensures Hops(names, p1, parse) == Hops(names, p2, parse)
  {
    if names != [] {
      LastOfSort(p1, names[0]);
      LastOfSort(p2, names[0]);
      SameEntriesSameHops(names[1..], p1, p2, parse);
    }
  }

  lemma SameFeedSameEntries(c1: FileConfig, c2: FileConfig)
    requires c1.rules != [] && c2.rules != [] && Feed(c1) == Feed(c2)
    ensures Sort(c1.proxies) == Sort(c2.proxies)
    ensures Sort(LowerRules(c1.rules)) == Sort(LowerRules(c2.rules))
  {
    SortSorts(LowerRules(c1.rules));
    SortSorts(LowerRules(c2.rules));
    assert |multiset(LowerRules(c1.rules))| == |c1.rules| && |multiset(LowerRules(c2.rules))| == |c2.rules|;
    FeedTellsApart(Sort(c1.proxies), Sort(LowerRules(c1.rules)), Sort(c2.proxies), Sort(LowerRules(c2.rules)));
  }

  lemma SameEntriesSameRoute<P>(c1: FileConfig, c2: FileConfig, parse: string -> Option<P>, host: string)
    requires Sort(c1.proxies) == Sort(c2.proxies)
    requires Sort(LowerRules(c1.rules)) == Sort(LowerRules(c2.rules))
    ensures RouteOf(c1, parse, host) == RouteOf(c2, parse, host)
  {
    LastOfSort(LowerRules(c1.rules), Normal(host));
    LastOfSort(LowerRules(c2.rules), Normal(host));
    LastOfSort(LowerRules(c1.rules), "default");
    LastOfSort(LowerRules(c2.rules), "default");
    var names := RuleFor(c1.rules, host);
    if names.Some? {
      SameEntriesSameHops(names.value, c1.proxies, c2.proxies, parse);
    }
  }

  /** Not publishing a configuration with an unchanged fingerprint is sound: it would have
      routed every host the same way, even when rule keys collide modulo case. */
  lemma SameFeedSameTable<P>(c1: FileConfig, c2: FileConfig, parse: string -> Option<P>)
    requires Build(c1, parse).Ok? && Build(c2, parse).Ok?
    requires Build(c1, parse).value.feed == Build(c2, parse).value.feed
    ensures forall host :: Build(c1, parse).value.router.Lookup(host) == Build(c2, parse).value.router.Lookup(host)
  {
    TableRoutesAsDocumented(c1, parse);
    TableRoutesAsDocumented(c2, parse);
    SameFeedSameEntries(c1, c2);
    forall host
      ensures Build(c1, parse).value.router.Lookup(host) == Build(c2, parse).value.router.Lookup(host)
    {
      SameEntriesSameRoute(c1, c2, parse, host);
      assert RouteOf(c1, parse, host) == Some(Build(c1, parse).value.router.Lookup(host));
      assert RouteOf(c2, parse, host) == Some(Build(c2, parse).value.router.Lookup(host));
    }
  }
}
