/** Which spelling of a name the hosts file lists, and when that depends on hash-map iteration
    order: the `seen` set of src/router.rs. */
module Listing {
  import opened Wrappers
  import opened Strings
  import opened Targets
  import opened Tables
  import opened Routing
  import opened Canonicity

  /** The first of the rule keys that are `key` modulo ASCII case. */
  function FirstSpelling(rules: Entries<seq<string>>, key: string): Option<string> {
    if rules == [] then None
    else
      var n := |rules| - 1;
      var earlier := FirstSpelling(rules[..n], key);
      if earlier.Some? then earlier
      else if Lower(rules[n].0) == key then Some(rules[n].0)
      else None
  }

  lemma FirstOfSnoc(done: Entries<seq<string>>, rule: (string, seq<string>), key: string)
    ensures FirstSpelling(done + [rule], key) ==
      if FirstSpelling(done, key).Some? then FirstSpelling(done, key)
      else if Lower(rule.0) == key then Some(rule.0) else None
  {
    assert (done + [rule])[..|done|] == done;
  }

  lemma {:induction false} FirstOfCons(rule: (string, seq<string>), rest: Entries<seq<string>>)
    ensures FirstSpelling([rule] + rest, Lower(rule.0)) == Some(rule.0)
    decreases |rest|
  {
    var n := |rest|;
    if n == 0 {
      assert ([rule] + rest)[..0] == [];
    } else {
      FirstOfCons(rule, rest[..n - 1]);
      assert ([rule] + rest)[..n] == [rule] + rest[..n - 1];
    }
  }

  lemma {:induction false} FirstIsAKey(rules: Entries<seq<string>>, key: string)
    ensures FirstSpelling(rules, key).Some? <==> exists i :: 0 <= i < |rules| && Lower(rules[i].0) == key
    ensures FirstSpelling(rules, key).Some? ==>
      && Lower(FirstSpelling(rules, key).value) == key
      && exists i :: 0 <= i < |rules| && rules[i].0 == FirstSpelling(rules, key).value
    decreases |rules|
  {
    if rules != [] {
      var n := |rules| - 1;
      FirstIsAKey(rules[..n], key);
      assert forall i :: 0 <= i < n ==> rules[..n][i] == rules[i];
      if Lower(rules[n].0) == key {
        assert FirstSpelling(rules, key).Some?;
      }
    }
  }

  // ---------------------------------------------------------------- what is listed

  ghost predicate ListsFirst<P>(d: Draft<P>, done: Entries<seq<string>>) {
    && (forall name :: name in d.hostnames <==>
          Lower(name) != "default" && FirstSpelling(done, Lower(name)) == Some(name))
    && (forall key :: key in d.seen <==> key != "default" && FirstSpelling(done, key).Some?)
  }

  lemma AddRuleListsFirst<P>(d: Draft<P>, done: Entries<seq<string>>, rule: (string, seq<string>), m: map<string, P>)
    requires ListsFirst(d, done) && AddRule(rule, m, d).Ok?
    ensures ListsFirst(AddRule(rule, m, d).value, done + [rule])
  {
    var next := AddRule(rule, m, d).value;
    forall key
      ensures key in next.seen <==> key != "default" && FirstSpelling(done + [rule], key).Some?
    {
      FirstOfSnoc(done, rule, key);
    }
    forall name
      ensures name in next.hostnames <==>
        Lower(name) != "default" && FirstSpelling(done + [rule], Lower(name)) == Some(name)
    {
      FirstOfSnoc(done, rule, Lower(name));
    }
  }

  lemma {:induction false} AddRulesListFirst<P>(d: Draft<P>, done: Entries<seq<string>>, rules: Entries<seq<string>>,
                                                m: map<string, P>)
    requires ListsFirst(d, done) && AddRules(rules, m, d).Ok?
    ensures ListsFirst(AddRules(rules, m, d).value, done + rules)
    decreases |rules|
  {
    hide ListsFirst, AddRule;
    if rules == [] {
      assert done + rules == done;
    } else {
      AddRuleListsFirst(d, done, rules[0], m);
      AddRulesListFirst(AddRule(rules[0], m, d).value, done + [rules[0]], rules[1..], m);
      assert done + [rules[0]] + rules[1..] == done + rules;
    }
  }

  /** A name is listed exactly when it is the first spelling of its rule key. */
  lemma FirstSpellingsAreListed<P>(cfg: FileConfig, parse: string -> Option<P>, name: string)
    requires Build(cfg, parse).Ok?
    ensures name in Build(cfg, parse).value.hostnames
       <==> Lower(name) != "default" && FirstSpelling(cfg.rules, Lower(name)) == Some(name)
  {
    var m := LoadProxies(cfg.proxies, parse, map[]).value;
    var empty: Draft<P> := Draft(map[], None, [], {});
    AddRulesListFirst(empty, [], cfg.rules, m);
    assert [] + cfg.rules == cfg.rules;
    var names := AddRules(cfg.rules, m, empty).value.hostnames;
    if name in names {
      NamesAreSorted(names, name);
    }
    if name in SortNames(names) {
      SortNamesIs(names);
      var k :| 0 <= k < |SortNames(names)| && SortNames(names)[k] == name;
      SortedEntriesAreKeyed(names, Sort(Keyed(names))[k]);
    }
  }

  // ---------------------------------------------------------------- iteration order

  lemma SameEntries<T>(a: Entries<T>, b: Entries<T>, e: (string, T))
    requires multiset(a) == multiset(b)
    ensures e in a <==> e in b
  {
    assert e in a <==> e in multiset(a);
    assert e in b <==> e in multiset(b);
  }

  lemma DefaultIsReordered(c: FileConfig, c2: FileConfig)
    requires Reorders(c2, c) && Last(LowerRules(c.rules), "default").Some?
    requires forall i :: 0 <= i < |c2.rules| ==> c2.rules[i].1 != []
    ensures Last(LowerRules(c2.rules), "default").Some? && Last(LowerRules(c2.rules), "default").value != []
  {
    LastIsEntry(LowerRules(c.rules), "default");
    LastIsEntry(LowerRules(c2.rules), "default");
    var i :| 0 <= i < |LowerRules(c.rules)| && LowerRules(c.rules)[i].0 == "default";
    SameEntries(c.rules, c2.rules, c.rules[i]);
    var k :| 0 <= k < |c2.rules| && c2.rules[k] == c.rules[i];
    assert LowerRules(c2.rules)[k].0 == "default";
  }

  /** Whether a configuration is accepted does not depend on the iteration order. */
  lemma ReorderedIsAccepted<P>(c: FileConfig, c2: FileConfig, parse: string -> Option<P>)
    requires c.Valid() && Reorders(c2, c) && Build(c, parse).Ok?
    ensures Build(c2, parse).Ok?
  {
    TableRoutesAsDocumented(c, parse);
    TableRoutesAsDocumented(c2, parse);
    DistinctKeysDetermine(c.proxies);
    SortIsCanonical(c.proxies, c2.proxies);
    forall i | 0 <= i < |c2.proxies|
      ensures parse(c2.proxies[i].1).Some?
    {
      SameEntries(c.proxies, c2.proxies, c2.proxies[i]);
    }
    forall i | 0 <= i < |c2.rules|
      ensures GoodRule(c2.rules[i], c2.proxies, parse) && c2.rules[i].1 != []
    {
      SameEntries(c.rules, c2.rules, c2.rules[i]);
      SameEntriesSameHops(c2.rules[i].1, c.proxies, c2.proxies, parse);
    }
    DefaultIsReordered(c, c2);
  }

  /** No two rule keys other than the default's are spellings of one name. */
  ghost predicate OneSpellingEach(rules: Entries<seq<string>>) {
    forall i, j :: 0 <= i < |rules| && 0 <= j < |rules| && Lower(rules[i].0) == Lower(rules[j].0) != "default" ==>
      rules[i].0 == rules[j].0
  }

  lemma OneSpellingIsFirst(rules: Entries<seq<string>>, rules2: Entries<seq<string>>, key: string)
    requires OneSpellingEach(rules) && multiset(rules) == multiset(rules2) && key != "default"
    requires FirstSpelling(rules, key).Some?
    ensures FirstSpelling(rules2, key) == FirstSpelling(rules, key)
  {
    FirstIsAKey(rules, key);
    FirstIsAKey(rules2, key);
    var i :| 0 <= i < |rules| && rules[i].0 == FirstSpelling(rules, key).value;
    SameEntries(rules, rules2, rules[i]);
    var k :| 0 <= k < |rules2| && rules2[k] == rules[i];
    assert FirstSpelling(rules2, key).Some?;
    var j :| 0 <= j < |rules2| && rules2[j].0 == FirstSpelling(rules2, key).value;
    SameEntries(rules, rules2, rules2[j]);
    var l :| 0 <= l < |rules| && rules[l] == rules2[j];
    assert Lower(rules[i].0) == Lower(rules[l].0);
  }

  lemma {:induction false} SortedNamesAreUnique(a: seq<string>, b: seq<string>)
    requires SortedModuloCase(a) && SortedModuloCase(b)
    requires forall name :: name in a <==> name in b
    ensures a == b
    decreases |a|
  {
    assert b != [] ==> b[0] in a;
    if a != [] {
      assert a[0] in b && b[0] in a;
      var i :| 0 <= i < |a| && a[i] == b[0];
      var k :| 0 <= k < |b| && b[k] == a[0];
      LeTotal(Lower(a[0]), Lower(b[0]));
      assert i == 0;
      forall name
        ensures name in a[1..] <==> name in b[1..]
      {
        assert name in a <==> name == a[0] || name in a[1..];
        assert name in b <==> name == b[0] || name in b[1..];
      }
      SortedNamesAreUnique(a[1..], b[1..]);
      assert a == [a[0]] + a[1..] && b == [b[0]] + b[1..];
    }
  }

  /** The order in which the map is iterated with rule `i` first. */
  function WithFirst(c: FileConfig, i: nat): FileConfig
    requires i < |c.rules|
  {
    FileConfig(c.proxies, [c.rules[i]] + (c.rules[..i] + c.rules[i + 1..]))
  }

  lemma WithFirstReorders(c: FileConfig, i: nat)
    requires i < |c.rules|
    ensures Reorders(WithFirst(c, i), c)
  {
    assert c.rules == c.rules[..i] + [c.rules[i]] + c.rules[i + 1..];
  }

  lemma FirstIsListed<P>(c: FileConfig, parse: string -> Option<P>, i: nat)
    requires c.Valid() && Build(c, parse).Ok? && i < |c.rules| && Lower(c.rules[i].0) != "default"
    ensures Reorders(WithFirst(c, i), c) && Build(WithFirst(c, i), parse).Ok?
    ensures c.rules[i].0 in Build(WithFirst(c, i), parse).value.hostnames
  {
    WithFirstReorders(c, i);
    ReorderedIsAccepted(c, WithFirst(c, i), parse);
    FirstOfCons(c.rules[i], c.rules[..i] + c.rules[i + 1..]);
    FirstSpellingsAreListed(WithFirst(c, i), parse, c.rules[i].0);
  }

  lemma SpellingsAgree(rules: Entries<seq<string>>, rules2: Entries<seq<string>>, key: string)
    requires OneSpellingEach(rules) && multiset(rules) == multiset(rules2) && key != "default"
    ensures FirstSpelling(rules, key) == FirstSpelling(rules2, key)
  {
    if FirstSpelling(rules, key).Some? {
      OneSpellingIsFirst(rules, rules2, key);
    } else if FirstSpelling(rules2, key).Some? {
      FirstIsAKey(rules, key);
      FirstIsAKey(rules2, key);
      var j :| 0 <= j < |rules2| && Lower(rules2[j].0) == key;
      SameEntries(rules, rules2, rules2[j]);
    }
  }

  lemma SameSpellingsSameNames<P>(c: FileConfig, c2: FileConfig, parse: string -> Option<P>)
    requires c.Valid() && Reorders(c2, c) && Build(c, parse).Ok? && OneSpellingEach(c.rules)
    ensures Build(c2, parse).Ok? && Build(c2, parse).value.hostnames == Build(c, parse).value.hostnames
  {
    ReorderedIsAccepted(c, c2, parse);
    var a, b := Build(c, parse).value.hostnames, Build(c2, parse).value.hostnames;
    HostnamesAreTheKeys(c, parse);
    HostnamesAreTheKeys(c2, parse);
    forall name
      ensures name in a <==> name in b
    {
      FirstSpellingsAreListed(c, parse, name);
      FirstSpellingsAreListed(c2, parse, name);
      if Lower(name) != "default" {
        SpellingsAgree(c.rules, c2.rules, Lower(name));
      }
    }
    SortedNamesAreUnique(a, b);
  }

  /** Acceptance never depends on the iteration order, and the hostname list does not either
      exactly when no two rule keys spell one name. */
  lemma HostnamesAreCanonicalExactly<P>(c: FileConfig, parse: string -> Option<P>)
    requires c.Valid() && Build(c, parse).Ok?
    ensures forall c2 | Reorders(c2, c) :: Build(c2, parse).Ok?
    ensures (forall c2 | Reorders(c2, c) :: Build(c2, parse).value.hostnames == Build(c, parse).value.hostnames)
       <==> OneSpellingEach(c.rules)
  {
    forall c2 | Reorders(c2, c)
      ensures Build(c2, parse).Ok?
      ensures OneSpellingEach(c.rules) ==> Build(c2, parse).value.hostnames == Build(c, parse).value.hostnames
    {
      ReorderedIsAccepted(c, c2, parse);
      if OneSpellingEach(c.rules) {
        SameSpellingsSameNames(c, c2, parse);
      }
    }
    if forall c2 | Reorders(c2, c) :: Build(c2, parse).value.hostnames == Build(c, parse).value.hostnames {
      forall i, j | 0 <= i < |c.rules| && 0 <= j < |c.rules| && Lower(c.rules[i].0) == Lower(c.rules[j].0) != "default"
        ensures c.rules[i].0 == c.rules[j].0
      {
        FirstIsListed(c, parse, i);
        FirstIsListed(c, parse, j);
        FirstSpellingsAreListed(c, parse, c.rules[i].0);
        FirstSpellingsAreListed(c, parse, c.rules[j].0);
      }
    }
  }

  // ---------------------------------------------------------------- an example

  /** Two spellings of one name with different proxies. */
  function Collision(): FileConfig {
    FileConfig([("p", "http://p"), ("q", "http://q")], [("default", ["p"]), ("A", ["p"]), ("a", ["q"])])
  }

  lemma SpellingsCollide()
    ensures Collision().Valid()
    ensures Lower("A") == Lower("a") == "a" && Lower("default") == "default"
    ensures !CollisionsAgree(Collision().rules) && !OneSpellingEach(Collision().rules)
  {
    assert Lower("A") == "a" && Lower("a") == "a" && Lower("default") == "default";
    var rules := Collision().rules;
    assert rules[1] == ("A", ["p"]) && rules[2] == ("a", ["q"]);
    assert Lower(rules[1].0) == Lower(rules[2].0);
    assert ["p"][0] != ["q"][0] && "A"[0] != "a"[0];
  }

  lemma LettersAreHostnames()
    ensures IsValidHostname("A") && IsValidHostname("a")
  {
    HostnamesAreDottedLabels("A");
    HostnamesAreDottedLabels("a");
  }

  lemma OneHopIsGood<P>(key: string, name: string, proxies: Entries<string>, parse: string -> Option<P>)
    requires Lower(key) == "default" || IsValidHostname(key)
    requires Last(proxies, name).Some? && parse(Last(proxies, name).value).Some?
    ensures GoodRule((key, [name]), proxies, parse)
  {
    assert [name][1..] == [];
  }

  lemma ProxiesOfCollision()
    ensures Last(Collision().proxies, "p") == Some("http://p") && Last(Collision().proxies, "q") == Some("http://q")
  {
    var proxies := Collision().proxies;
    assert proxies[1..][1..] == [];
    assert "p"[0] != "q"[0];
  }

  lemma CollidingRulesAreGood<P>(parse: string -> Option<P>)
    requires parse("http://p").Some? && parse("http://q").Some?
    ensures var c := Collision();
      forall i :: 0 <= i < |c.rules| ==> GoodRule(c.rules[i], c.proxies, parse)
  {
    hide IsValidHostname, GoodRule, Last;
    SpellingsCollide();
    LettersAreHostnames();
    ProxiesOfCollision();
    var proxies := Collision().proxies;
    OneHopIsGood("default", "p", proxies, parse);
    OneHopIsGood("A", "p", proxies, parse);
    OneHopIsGood("a", "q", proxies, parse);
  }

  lemma OnlyFirstIs(rules: Entries<seq<string>>, key: string, names: seq<string>)
    requires rules != [] && rules[0] == (key, names) && forall i :: 0 < i < |rules| ==> rules[i].0 != key
    ensures Last(rules, key) == Some(names)
  {
    LastIsEntry(rules[1..], key);
    assert forall i :: 0 <= i < |rules| - 1 ==> rules[1..][i] == rules[i + 1];
  }

  lemma DefaultOfCollision()
    ensures Last(LowerRules(Collision().rules), "default") == Some(["p"])
  {
    hide Last;
    SpellingsCollide();
    var rules := LowerRules(Collision().rules);
    OnlyFirstIs(rules, "default", ["p"]);
  }

  lemma CollisionIsAccepted<P>(parse: string -> Option<P>)
    requires parse("http://p").Some? && parse("http://q").Some?
    ensures Build(Collision(), parse).Ok?
  {
    hide Build, GoodRule, Last, LowerRules;
    CollidingRulesAreGood(parse);
    DefaultOfCollision();
    TableRoutesAsDocumented(Collision(), parse);
  }

  /** An accepted configuration whose fingerprint, routes and listed spelling all depend on the
      iteration order. */
  lemma CollisionDependsOnOrder<P>(parse: string -> Option<P>)
    requires parse("http://p").Some? && parse("http://q").Some?
    ensures var c := Collision();
      && c.Valid() && Build(c, parse).Ok?
      && (exists c2 :: Reorders(c2, c) && Feed(c2) != Feed(c))
      && (exists c2, host :: Reorders(c2, c) && RouteOf(c2, parse, host) != RouteOf(c, parse, host))
      && (exists c2 :: Reorders(c2, c) && Build(c2, parse).Ok?
                       && Build(c2, parse).value.hostnames != Build(c, parse).value.hostnames)
  {
    hide Build, Reorders, Feed, RouteOf;
    SpellingsCollide();
    CollisionIsAccepted(parse);
    FeedIsCanonicalExactly(Collision());
    RoutesAreCanonicalExactly(Collision(), parse);
    HostnamesAreCanonicalExactly(Collision(), parse);
  }
}
