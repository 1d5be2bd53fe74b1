/** What does not depend on hash-map iteration order, and how the hosts entries agree with the
    table: src/router.rs. */
module Canonicity {
  import opened Wrappers
  import opened Search
  import opened Strings
  import opened Targets
  import opened Tables
  import opened Routing

  /** The same configuration, iterated in another order. */
  ghost predicate Reorders(c2: FileConfig, c1: FileConfig) {
    multiset(c2.proxies) == multiset(c1.proxies) && multiset(c2.rules) == multiset(c1.rules)
  }

  /** Rules whose keys collide modulo ASCII case list the same proxies. */
  ghost predicate CollisionsAgree(rules: Entries<seq<string>>) {
    forall i, j :: 0 <= i < |rules| && 0 <= j < |rules| && Lower(rules[i].0) == Lower(rules[j].0) ==>
      rules[i].1 == rules[j].1
  }

  lemma LowerRulesOfAppend(a: Entries<seq<string>>, b: Entries<seq<string>>)
    ensures LowerRules(a + b) == LowerRules(a) + LowerRules(b)
  {
  }

  lemma LowerRulesOfHead(a: Entries<seq<string>>)
    requires a != []
    ensures multiset(a) == multiset{a[0]} + multiset(a[1..])
    ensures multiset(LowerRules(a)) == multiset{(Lower(a[0].0), a[0].1)} + multiset(LowerRules(a[1..]))
  {
    assert a == [a[0]] + a[1..];
    LowerRulesOfAppend([a[0]], a[1..]);
    assert LowerRules([a[0]]) == [(Lower(a[0].0), a[0].1)];
  }

  lemma LowerRulesWithout(b: Entries<seq<string>>, j: nat)
    requires j < |b|
    ensures var rest := b[..j] + b[j + 1..];
      && multiset(b) == multiset{b[j]} + multiset(rest)
      && multiset(LowerRules(b)) == multiset{(Lower(b[j].0), b[j].1)} + multiset(LowerRules(rest))
  {
    assert b == b[..j] + b[j..];
    LowerRulesOfHead(b[j..]);
    LowerRulesOfAppend(b[..j], b[j..]);
    LowerRulesOfAppend(b[..j], b[j + 1..]);
    assert b[j..][1..] == b[j + 1..];
  }

  lemma {:induction false} LowerRulesReorders(a: Entries<seq<string>>, b: Entries<seq<string>>)
    requires multiset(a) == multiset(b)
    ensures multiset(LowerRules(a)) == multiset(LowerRules(b))
    decreases |a|
  {
    assert |multiset(a)| == |a| && |multiset(b)| == |b|;
    if a != [] {
      assert a[0] in multiset(b);
      var j :| 0 <= j < |b| && b[j] == a[0];
      LowerRulesOfHead(a);
      LowerRulesWithout(b, j);
      assert multiset(a[1..]) == multiset(a) - multiset{a[0]};
      assert multiset(b[..j] + b[j + 1..]) == multiset(b) - multiset{b[j]};
      LowerRulesReorders(a[1..], b[..j] + b[j + 1..]);
    }
  }

  lemma DistinctKeysDetermine(proxies: Entries<string>)
    requires forall i, j :: 0 <= i < j < |proxies| ==> proxies[i].0 != proxies[j].0
    ensures KeysDetermine(proxies)
  {
  }

  lemma AgreeingKeysDetermine(rules: Entries<seq<string>>)
    requires CollisionsAgree(rules)
    ensures KeysDetermine(LowerRules(rules))
  {
  }

  lemma AgreeingOrdersSortAlike(c: FileConfig, c2: FileConfig)
    requires c.Valid() && CollisionsAgree(c.rules) && Reorders(c2, c)
    ensures Sort(c2.proxies) == Sort(c.proxies)
    ensures Sort(LowerRules(c2.rules)) == Sort(LowerRules(c.rules))
  {
    DistinctKeysDetermine(c.proxies);
    AgreeingKeysDetermine(c.rules);
    LowerRulesReorders(c.rules, c2.rules);
    SortIsCanonical(c.proxies, c2.proxies);
    SortIsCanonical(LowerRules(c.rules), LowerRules(c2.rules));
  }

  /** The order in which the map is iterated with rule `i` last. */
  function WithLast(c: FileConfig, i: nat): FileConfig
    requires i < |c.rules|
  {
    FileConfig(c.proxies, MoveLast(c.rules, i))
  }

  lemma MovedLastWins(c: FileConfig, i: nat)
    requires i < |c.rules|
    ensures Reorders(WithLast(c, i), c)
    ensures Last(LowerRules(WithLast(c, i).rules), Lower(c.rules[i].0)) == Some(c.rules[i].1)
  {
    var others := c.rules[..i] + c.rules[i + 1..];
    LowerRulesOfSnoc(others, c.rules[i]);
    LastOfSnoc(LowerRules(others), (Lower(c.rules[i].0), c.rules[i].1), Lower(c.rules[i].0));
  }

  /** The fingerprint is the same for every iteration order exactly when rules whose keys
      collide modulo case agree. */
  lemma FeedIsCanonicalExactly(c: FileConfig)
    requires c.Valid()
    ensures (forall c2 | Reorders(c2, c) :: Feed(c2) == Feed(c)) <==> CollisionsAgree(c.rules)
  {
    if CollisionsAgree(c.rules) {
      forall c2 | Reorders(c2, c)
        ensures Feed(c2) == Feed(c)
      {
        AgreeingOrdersSortAlike(c, c2);
      }
    }
    if forall c2 | Reorders(c2, c) :: Feed(c2) == Feed(c) {
      forall i, j | 0 <= i < |c.rules| && 0 <= j < |c.rules| && Lower(c.rules[i].0) == Lower(c.rules[j].0)
        ensures c.rules[i].1 == c.rules[j].1
      {
        MovedLastWins(c, i);
        MovedLastWins(c, j);
        SameFeedSameEntries(WithLast(c, i), WithLast(c, j));
        LastOfSort(LowerRules(WithLast(c, i).rules), Lower(c.rules[i].0));
        LastOfSort(LowerRules(WithLast(c, j).rules), Lower(c.rules[i].0));
      }
    }
  }

  lemma HostnamesAreNormal(name: string)
    requires IsValidHostname(name) || Lower(name) == "default"
    ensures Normal(Lower(name)) == Lower(name)
  {
    var lower := Lower(name);
    assert name != "" ==> lower[|lower| - 1] == LowerChar(name[|name| - 1]);
    assert lower != "" && lower[|lower| - 1] != '.' by {
      assert |"default"| == 7;
    }
    LowerIsIdempotent(name);
  }

  lemma SameHopsSameNames<P>(a: seq<string>, b: seq<string>, proxies: Entries<string>, parse: string -> Option<P>)
    requires Hops(a, proxies, parse).Some? && Hops(a, proxies, parse) == Hops(b, proxies, parse)
    ensures a == b
  {
    HopsKeepNames(a, proxies, parse);
    HopsKeepNames(b, proxies, parse);
  }

  lemma RouteOfMovedLast<P>(c: FileConfig, parse: string -> Option<P>, i: nat)
    requires i < |c.rules| && GoodRule(c.rules[i], c.proxies, parse)
    ensures RouteOf(WithLast(c, i), parse, Lower(c.rules[i].0)) == Hops(c.rules[i].1, c.proxies, parse)
  {
    MovedLastWins(c, i);
    HostnamesAreNormal(c.rules[i].0);
  }

  /** Likewise for the routes themselves: a table is a function of the configuration, and not
      of its iteration order, exactly when colliding rules agree. */
  lemma RoutesAreCanonicalExactly<P>(c: FileConfig, parse: string -> Option<P>)
    requires c.Valid() && Build(c, parse).Ok?
    ensures (forall c2, host | Reorders(c2, c) :: RouteOf(c2, parse, host) == RouteOf(c, parse, host))
       <==> CollisionsAgree(c.rules)
  {
    TableRoutesAsDocumented(c, parse);
    if CollisionsAgree(c.rules) {
      forall c2, host | Reorders(c2, c)
        ensures RouteOf(c2, parse, host) == RouteOf(c, parse, host)
      {
        AgreeingOrdersSortAlike(c, c2);
        SameEntriesSameRoute(c2, c, parse, host);
      }
    }
    if forall c2, host | Reorders(c2, c) :: RouteOf(c2, parse, host) == RouteOf(c, parse, host) {
      forall i, j | 0 <= i < |c.rules| && 0 <= j < |c.rules| && Lower(c.rules[i].0) == Lower(c.rules[j].0)
        ensures c.rules[i].1 == c.rules[j].1
      {
        RouteOfMovedLast(c, parse, i);
        RouteOfMovedLast(c, parse, j);
        MovedLastWins(c, i);
        MovedLastWins(c, j);
        SameHopsSameNames(c.rules[i].1, c.rules[j].1, c.proxies, parse);
      }
    }
  }

  // ---------------------------------------------------------------- the hosts entries

  ghost predicate DistinctModuloCase(names: seq<string>) {
    forall i, j :: 0 <= i < j < |names| ==> Lower(names[i]) != Lower(names[j])
  }

  /** The names are valid and distinct modulo case, and lower-cased they are `seen`. */
  ghost predicate Lists(names: seq<string>, seen: set<string>) {
    && DistinctModuloCase(names)
    && (forall i :: 0 <= i < |names| ==> IsValidHostname(names[i]) && Lower(names[i]) in seen)
    && (forall key :: key in seen ==> exists i :: 0 <= i < |names| && Lower(names[i]) == key)
  }

  lemma NewNameIsListed(names: seq<string>, name: string, seen: set<string>)
    requires Lists(names, seen) && IsValidHostname(name) && Lower(name) !in seen
    ensures Lists(names + [name], seen + {Lower(name)})
  {
    var more := names + [name];
    forall key | key in seen + {Lower(name)}
      ensures exists i :: 0 <= i < |more| && Lower(more[i]) == key
    {
      if key in seen {
        var i :| 0 <= i < |names| && Lower(names[i]) == key;
        assert more[i] == names[i];
      } else {
        assert more[|names|] == name;
      }
    }
  }

  ghost predicate NamesMatch<P>(d: Draft<P>) {
    Lists(d.hostnames, d.seen) && d.rules.Keys == d.seen
  }

  lemma AddRuleMatches<P>(d: Draft<P>, rule: (string, seq<string>), m: map<string, P>)
    requires NamesMatch(d) && AddRule(rule, m, d).Ok?
    ensures NamesMatch(AddRule(rule, m, d).value)
  {
    var next := AddRule(rule, m, d).value;
    hide Lists, Resolve, IsValidHostname;
    var lower := Lower(rule.0);
    if lower != "default" {
      assert next.rules.Keys == d.rules.Keys + {lower};
      if lower in d.seen {
        assert next.seen == d.seen;
      } else {
        NewNameIsListed(d.hostnames, rule.0, d.seen);
      }
    }
  }

  lemma {:induction false} AddRulesMatch<P>(d: Draft<P>, rules: Entries<seq<string>>, m: map<string, P>)
    requires NamesMatch(d) && AddRules(rules, m, d).Ok?
    ensures NamesMatch(AddRules(rules, m, d).value)
    decreases |rules|
  {
    if rules != [] {
      AddRuleMatches(d, rules[0], m);
      AddRulesMatch(AddRule(rules[0], m, d).value, rules[1..], m);
    }
  }

  lemma SortNamesIs(names: seq<string>)
    ensures var s := Sort(Keyed(names));
      |SortNames(names)| == |s| && forall i :: 0 <= i < |s| ==> SortNames(names)[i] == s[i].1
  {
  }

  lemma SortedEntriesAreKeyed(names: seq<string>, e: (string, string))
    requires e in Sort(Keyed(names))
    ensures e.1 in names && e.0 == Lower(e.1)
  {
    SortSorts(Keyed(names));
    assert e in multiset(Sort(Keyed(names)));
    assert e in Keyed(names);
  }

  lemma NamesAreSorted(names: seq<string>, name: string)
    requires name in names
    ensures name in SortNames(names)
  {
    SortNamesIs(names);
    SortSorts(Keyed(names));
    var i :| 0 <= i < |names| && names[i] == name;
    assert Keyed(names)[i] in multiset(Sort(Keyed(names)));
    var s := Sort(Keyed(names));
    var k :| 0 <= k < |s| && s[k] == Keyed(names)[i];
    assert SortNames(names)[k] == name;
  }

  ghost predicate SortedModuloCase(names: seq<string>) {
    forall i, j :: 0 <= i < j < |names| ==> Le(Lower(names[i]), Lower(names[j])) && Lower(names[i]) != Lower(names[j])
  }

  lemma {:induction false} KeyedOnce(names: seq<string>, e: (string, string))
    requires DistinctModuloCase(names)
    ensures multiset(Keyed(names))[e] <= 1
    decreases |names|
  {
    if names == [] {
    } else {
      assert Keyed(names) == [(Lower(names[0]), names[0])] + Keyed(names[1..]);
      forall i, j | 0 <= i < j < |names[1..]|
        ensures Lower(names[1..][i]) != Lower(names[1..][j])
      {
        assert names[1..][i] == names[i + 1] && names[1..][j] == names[j + 1];
      }
      KeyedOnce(names[1..], e);
      if e == (Lower(names[0]), names[0]) {
        assert e !in Keyed(names[1..]);
      }
    }
  }

  lemma TwiceMeansTwo<T>(s: seq<T>, i: nat, j: nat)
    requires i < j < |s| && s[i] == s[j]
    ensures multiset(s)[s[i]] >= 2
  {
    assert s == s[..j] + [s[j]] + s[j + 1..];
    assert s[..j][i] == s[i];
    assert multiset(s) == multiset(s[..j]) + multiset([s[j]]) + multiset(s[j + 1..]);
  }

  lemma SortedNamesAreDistinct(names: seq<string>, i: nat, j: nat)
    requires DistinctModuloCase(names) && i < j < |SortNames(names)|
    ensures Le(Lower(SortNames(names)[i]), Lower(SortNames(names)[j]))
    ensures Lower(SortNames(names)[i]) != Lower(SortNames(names)[j])
  {
    var s := Sort(Keyed(names));
    SortNamesIs(names);
    SortSorts(Keyed(names));
    SortedEntriesAreKeyed(names, s[i]);
    SortedEntriesAreKeyed(names, s[j]);
    if s[i].0 == s[j].0 {
      var a :| 0 <= a < |names| && names[a] == s[i].1;
      var b :| 0 <= b < |names| && names[b] == s[j].1;
      assert a == b;
      assert s[i] == s[j];
      TwiceMeansTwo(s, i, j);
      KeyedOnce(names, s[i]);
    }
  }

  /** The hostname list is sorted and duplicate-free modulo case, and lower-cased it is the
      table's key set. */
  lemma HostnamesAreTheKeys<P>(cfg: FileConfig, parse: string -> Option<P>)
    requires Build(cfg, parse).Ok?
    ensures var rt := Build(cfg, parse).value;
      && SortedModuloCase(rt.hostnames)
      && (forall name :: name in rt.hostnames ==> IsValidHostname(name) && Lower(name) in rt.router.rules)
      && (forall key :: key in rt.router.rules ==> exists name :: name in rt.hostnames && Lower(name) == key)
  {
    var rt := Build(cfg, parse).value;
    var m := LoadProxies(cfg.proxies, parse, map[]).value;
    var empty: Draft<P> := Draft(map[], None, [], {});
    AddRulesMatch(empty, cfg.rules, m);
    var d := AddRules(cfg.rules, m, empty).value;
    forall i, j | 0 <= i < j < |rt.hostnames|
      ensures Le(Lower(rt.hostnames[i]), Lower(rt.hostnames[j])) && Lower(rt.hostnames[i]) != Lower(rt.hostnames[j])
    {
      SortedNamesAreDistinct(d.hostnames, i, j);
    }
    forall name | name in rt.hostnames
      ensures IsValidHostname(name) && Lower(name) in rt.router.rules
    {
      SortNamesIs(d.hostnames);
      var k :| 0 <= k < |rt.hostnames| && rt.hostnames[k] == name;
      SortedEntriesAreKeyed(d.hostnames, Sort(Keyed(d.hostnames))[k]);
    }
    forall key | key in rt.router.rules
      ensures exists name :: name in rt.hostnames && Lower(name) == key
    {
      assert key in d.seen;
      var i :| 0 <= i < |d.hostnames| && Lower(d.hostnames[i]) == key;
      NamesAreSorted(d.hostnames, d.hostnames[i]);
    }
  }

  lemma DotsTrim(name: string, dots: string)
    requires name != "" && name[|name| - 1] != '.' && forall i :: 0 <= i < |dots| ==> dots[i] == '.'
    ensures TrimDots(name + dots) == name
  {
    var s := name + dots;
    var r := TrimDots(s);
    assert s[|name| - 1] == name[|name| - 1];
    assert forall i :: |name| <= i < |s| ==> s[i] == dots[i - |name|];
    assert r != "" ==> r[|r| - 1] == s[|r| - 1];
    assert |r| == |name|;
  }

  lemma SpelledNamesAreNormal(name: string, spelled: string, dots: string)
    requires IsValidHostname(name) && Lower(spelled) == Lower(name)
    requires forall i :: 0 <= i < |dots| ==> dots[i] == '.'
    ensures Normal(spelled + dots) == Lower(name)
  {
    assert |spelled| == |name|;
    assert LowerChar(spelled[|spelled| - 1]) == Lower(spelled)[|spelled| - 1] == Lower(name)[|name| - 1]
        == LowerChar(name[|name| - 1]);
    DotsTrim(spelled, dots);
  }

  /** A listed name, in any case and with any number of trailing dots, looks up its own rule. */
  lemma ListedNamesRoute<P>(cfg: FileConfig, parse: string -> Option<P>, name: string, spelled: string, dots: string)
    requires Build(cfg, parse).Ok? && name in Build(cfg, parse).value.hostnames
    requires Lower(spelled) == Lower(name) && forall i :: 0 <= i < |dots| ==> dots[i] == '.'
    ensures var router := Build(cfg, parse).value.router;
      Lower(name) in router.rules && router.Lookup(spelled + dots) == router.rules[Lower(name)]
  {
    HostnamesAreTheKeys(cfg, parse);
    SpelledNamesAreNormal(name, spelled, dots);
  }

  /** Every host has at least one hop to try. */
  lemma LookupsAreNeverEmpty<P>(cfg: FileConfig, parse: string -> Option<P>, host: string)
    requires cfg.Valid() && Build(cfg, parse).Ok?
    ensures Build(cfg, parse).value.router.Lookup(host) != []
  {
    TableRoutesAsDocumented(cfg, parse);
    assert RouteOf(cfg, parse, host) == Some(Build(cfg, parse).value.router.Lookup(host));
    var key := if Last(LowerRules(cfg.rules), Normal(host)).Some? then Normal(host) else "default";
    LastIsEntry(LowerRules(cfg.rules), key);
    var lowered := LowerRules(cfg.rules);
    var i :| 0 <= i < |lowered| && lowered[i] == (key, Last(lowered, key).value);
    assert cfg.rules[i].1 != [];
    GoodRulesHaveHops(cfg, parse, key);
  }
}
