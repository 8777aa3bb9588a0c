/**
 What the loader says to a bundle directory after a run of Add, Retire and Remove: the overrides as
 rules of resolution.yaml, the layers as contracts, and the loader's own condition on both.
 */
module LifecycleLoads {
  import opened Order
  import opened Transform
  import opened Chains
  import opened Rules
  import opened Loading
  import opened Collections
  import Lifecycle

  // The contracts of the layers: each layer has some, and no two share a key.
  ghost predicate Declares(layers: seq<string>, declared: seq<Contract>) {
    && DistinctKeys(declared) && (forall d :: d in declared ==> Declared(d) && d.version in layers)
    && (forall v :: v in layers ==> exists d :: d in declared && d.version == v)
  }

  // resolution.yaml as Retire writes it: one version-only transform rule per override. What ops the
  // operator filled in does not matter.
  ghost predicate Written(overrides: map<string, string>, rules: seq<Rule>) {
    && (forall r :: r in rules ==>
          && SelectorEmpty(r.selectors) && r.action.ThroughShim? && r.version in overrides
          && r.action.shim.target == overrides[r.version])
    && (forall v :: v in overrides ==> exists r :: r in rules && r.version == v)
    && (forall i, j :: 0 <= i < j < |rules| ==> rules[i].version != rules[j].version)
  }

  // Some contract of the target version serves what d serves.
  ghost predicate Continues(declared: seq<Contract>, target: string, d: Contract) {
    exists next :: next in declared && next.version == target && Binds(next, d.route, d.verb)
  }

  // Every override's source is a layer, and every contract of it continues in the target layer.
  ghost predicate OverridesLead(s: Lifecycle.State, declared: seq<Contract>) {
    && (forall v :: v in s.overrides ==> v in s.layers)
    && (forall d :: d in declared && d.version in s.overrides ==> Continues(declared, s.overrides[d.version], d))
  }

  lemma {:induction false} NoVariants(d: Contract, rules: seq<Rule>)
    requires forall r :: r in rules ==> SelectorEmpty(r.selectors)
    ensures VariantsOf(d, rules) == []
    decreases |rules|
  {
    if rules != [] {
      assert rules[0] in rules && forall r :: r in rules[1..] ==> r in rules;
      NoVariants(d, rules[1..]);
    }
  }

  lemma WrittenIsAcceptable(overrides: map<string, string>, rules: seq<Rule>)
    requires Written(overrides, rules)
    ensures Acceptable(rules)
  {
  }

  // The one contract the loader derives from d, and where it leads.
  lemma ResolvedLeads(overrides: map<string, string>, rules: seq<Rule>, d: Contract)
    requires Written(overrides, rules) && Declared(d)
    ensures KeyOf(Resolved(d, rules)) == KeyOf(d) && Specialised(d, rules) == []
    ensures Resolved(d, rules).transformTarget == if d.version in overrides then overrides[d.version] else ""
  {
    var mine := RulesFor(rules, d.version);
    WrittenIsAcceptable(overrides, rules);
    RulesForMembers(rules, d.version);
    RulesForOneFallback(rules, d.version);
    CanonicalIsFallback(d, mine);
    NoVariants(d, mine);
    if d.version in overrides {
      var r :| r in rules && r.version == d.version;
      assert r in mine;
      var i :| 0 <= i < |mine| && mine[i] == r;
    } else {
      EmptyOrNot(mine);
    }
  }

  lemma AllResolved(declared: seq<Contract>, rules: seq<Rule>, c: Contract)
    requires forall d :: d in declared ==> Specialised(d, rules) == []
    ensures c in ResolvedAll(declared, rules) <==> Resolves(declared, rules, c)
  {
    if Resolves(declared, rules, c) {
      var d :| d in declared && Derived(d, rules, c);
      var k :| 0 <= k < |declared| && declared[k] == d;
      assert ResolvedAll(declared, rules)[k] == c;
    } else if c in ResolvedAll(declared, rules) {
      ContractResolves(declared, rules, c);
    }
  }

  ghost function IndexOf(cs: seq<Contract>): Index {
    map v | v in (set c | c in cs :: c.version) :: OfVersion(cs, v)
  }

  lemma IndexOfIsIndexed(cs: seq<Contract>)
    ensures Indexed(IndexOf(cs), cs)
  {
    forall v ensures v in IndexOf(cs) <==> OfVersion(cs, v) != [] {
      OfVersionMembers(cs, v);
      if OfVersion(cs, v) != [] { assert OfVersion(cs, v)[0] in OfVersion(cs, v); }
      if v in IndexOf(cs) {
        var c :| c in cs && c.version == v;
        assert c in OfVersion(cs, v);
      }
    }
  }

  // Where the step from a resolved contract goes, in terms of what was declared.
  lemma NextExactly(s: Lifecycle.State, declared: seq<Contract>, rules: seq<Rule>, byVersion: Index, d: Contract,
      route: string, verb: string)
    requires Written(s.overrides, rules) && Lifecycle.Forward(s) && (forall x :: x in declared ==> Declared(x))
    requires Indexed(byVersion, ResolvedAll(declared, rules)) && d in declared && Binds(d, route, verb)
    ensures var next := NextOf(byVersion, Resolved(d, rules), route, verb);
            && (next.Terminal? <==> d.version !in s.overrides)
            && (next.To? <==> d.version in s.overrides && Continues(declared, s.overrides[d.version], d))
  {
    ResolvedLeads(s.overrides, rules, d);
    if d.version in s.overrides { BoundExactly(s, declared, rules, s.overrides[d.version], d, route, verb); }
  }

  // The target version binds the route and method exactly when d continues there.
  lemma BoundExactly(s: Lifecycle.State, declared: seq<Contract>, rules: seq<Rule>, t: string, d: Contract,
      route: string, verb: string)
    requires Written(s.overrides, rules) && (forall x :: x in declared ==> Declared(x)) && Binds(d, route, verb)
    ensures FirstBinding(OfVersion(ResolvedAll(declared, rules), t), route, verb).Some? <==> Continues(declared, t, d)
  {
    FiledExactly(s, declared, rules, t);
    var cs := OfVersion(ResolvedAll(declared, rules), t);
    if FirstBinding(cs, route, verb).Some? {
      var x :| x in declared && x.version == t && KeyOf(FirstBinding(cs, route, verb).value) == KeyOf(x);
    }
  }

  // The contracts filed under a version are the resolved forms of those declared for it.
  lemma FiledExactly(s: Lifecycle.State, declared: seq<Contract>, rules: seq<Rule>, t: string)
    requires Written(s.overrides, rules) && forall x :: x in declared ==> Declared(x)
    ensures var cs := OfVersion(ResolvedAll(declared, rules), t);
            && (forall x :: x in declared && x.version == t ==> exists c :: c in cs && KeyOf(c) == KeyOf(x))
            && (forall c :: c in cs ==> exists x :: x in declared && x.version == t && KeyOf(c) == KeyOf(x))
  {
    var cs := ResolvedAll(declared, rules);
    OfVersionMembers(cs, t);
    forall x | x in declared && x.version == t ensures exists c :: c in OfVersion(cs, t) && KeyOf(c) == KeyOf(x) {
      ResolvedLeads(s.overrides, rules, x);
      var k :| 0 <= k < |declared| && declared[k] == x;
      assert cs[k] in OfVersion(cs, t);
    }
    forall c | c in OfVersion(cs, t) ensures exists x :: x in declared && x.version == t && KeyOf(c) == KeyOf(x) {
      var k :| 0 <= k < |cs| && cs[k] == c;
      ResolvedLeads(s.overrides, rules, declared[k]);
    }
  }

  // Every contract of a walk is the resolved form of a declared one.
  lemma WalkDeclared(s: Lifecycle.State, declared: seq<Contract>, rules: seq<Rule>, byVersion: Index, c: Contract,
      w: seq<Contract>, i: nat)
    returns (d: Contract)
    requires Written(s.overrides, rules) && (forall x :: x in declared ==> Declared(x)) && i < |w|
    requires Indexed(byVersion, ResolvedAll(declared, rules)) && Resolves(declared, rules, c) && IsWalk(byVersion, c, w)
    ensures d in declared && w[i] == Resolved(d, rules) && KeyOf(d) == KeyOf(w[i])
  {
    var cs := ResolvedAll(declared, rules);
    forall x | x in declared ensures Specialised(x, rules) == [] { ResolvedLeads(s.overrides, rules, x); }
    AllResolved(declared, rules, c);
    WalkStaysResolved(cs, byVersion, c, w, i);
    var k :| 0 <= k < |cs| && cs[k] == w[i];
    d := declared[k];
    ResolvedLeads(s.overrides, rules, d);
  }

  lemma WalkRises(s: Lifecycle.State, declared: seq<Contract>, rules: seq<Rule>, byVersion: Index, c: Contract,
      w: seq<Contract>)
    requires Written(s.overrides, rules) && Lifecycle.Forward(s) && forall x :: x in declared ==> Declared(x)
    requires Indexed(byVersion, ResolvedAll(declared, rules)) && Resolves(declared, rules, c) && IsWalk(byVersion, c, w)
    ensures DistinctVersions(w)
  {
    IndexedIsFiled(byVersion, ResolvedAll(declared, rules));
    forall x | x in w && x.transformTarget != "" ensures Less(x.version, x.transformTarget) {
      var i :| 0 <= i < |w| && w[i] == x;
      var d := WalkDeclared(s, declared, rules, byVersion, c, w, i);
      ResolvedLeads(s.overrides, rules, d);
    }
    Lifecycle.ForwardNeverCycles(byVersion, c, w);
  }

  // No walk of forward overrides gets stuck while every contract continues.
  lemma LeadingIsNotStuck(s: Lifecycle.State, declared: seq<Contract>, rules: seq<Rule>, byVersion: Index,
      c: Contract, w: seq<Contract>)
    requires Written(s.overrides, rules) && Lifecycle.Forward(s) && (forall x :: x in declared ==> Declared(x))
             && OverridesLead(s, declared)
    requires Indexed(byVersion, ResolvedAll(declared, rules)) && Resolves(declared, rules, c) && IsWalk(byVersion, c, w)
    ensures !IsStuck(byVersion, c, w)
  {
    WalkRises(s, declared, rules, byVersion, c, w);
    var d := WalkDeclared(s, declared, rules, byVersion, c, w, |w| - 1);
    IndexedIsFiled(byVersion, ResolvedAll(declared, rules));
    WalkServesOneBinding(byVersion, c, w, |w| - 1);
    NextExactly(s, declared, rules, byVersion, d, c.route, c.verb);
  }

  lemma WalkStaysResolved(cs: seq<Contract>, byVersion: Index, c: Contract, w: seq<Contract>, i: nat)
    requires Indexed(byVersion, cs) && c in cs && IsWalk(byVersion, c, w) && i < |w|
    ensures w[i] in cs
  {
    if i > 0 {
      WalkStep(byVersion, c, w, i - 1);
      OfVersionMembers(cs, w[i - 1].transformTarget);
    }
  }

  // The loader accepts forward overrides exactly when they lead somewhere.
  lemma OverridesLoadExactly(s: Lifecycle.State, declared: seq<Contract>, rules: seq<Rule>)
    requires Lifecycle.Forward(s) && Declares(s.layers, declared) && Written(s.overrides, rules)
    ensures RulesLoad(declared, rules) <==> OverridesLead(s, declared)
  {
    WrittenIsAcceptable(s.overrides, rules);
    KnownExactly(s, declared, rules);
    if OverridesLead(s, declared) {
      forall byVersion, c, w | Indexed(byVersion, ResolvedAll(declared, rules)) && Resolves(declared, rules, c)
        ensures !IsStuck(byVersion, c, w)
      {
        if IsWalk(byVersion, c, w) { LeadingIsNotStuck(s, declared, rules, byVersion, c, w); }
      }
    } else if d :| d in declared && d.version in s.overrides && !Continues(declared, s.overrides[d.version], d) {
      StuckAtOnce(s, declared, rules, d);
    }
  }

  lemma StuckAtOnce(s: Lifecycle.State, declared: seq<Contract>, rules: seq<Rule>, d: Contract)
    requires Written(s.overrides, rules) && Lifecycle.Forward(s) && forall x :: x in declared ==> Declared(x)
    requires d in declared && d.version in s.overrides && !Continues(declared, s.overrides[d.version], d)
    ensures ChainStuck(declared, rules)
  {
    var byVersion, c := IndexOf(ResolvedAll(declared, rules)), Resolved(d, rules);
    IndexOfIsIndexed(ResolvedAll(declared, rules));
    ResolvedLeads(s.overrides, rules, d);
    NextExactly(s, declared, rules, byVersion, d, c.route, c.verb);
    assert Derived(d, rules, c) && Resolves(declared, rules, c);
    assert Last([c]) == c && IsWalk(byVersion, c, [c]);
    assert IsStuck(byVersion, c, [c]);
  }

  lemma KnownExactly(s: Lifecycle.State, declared: seq<Contract>, rules: seq<Rule>)
    requires Declares(s.layers, declared) && Written(s.overrides, rules)
    ensures KnownVersions(declared, rules) <==> forall v :: v in s.overrides ==> v in s.layers
  {
    forall v ensures OfVersion(declared, v) != [] <==> v in s.layers {
      OfVersionMembers(declared, v);
      if OfVersion(declared, v) != [] { assert OfVersion(declared, v)[0] in OfVersion(declared, v); }
      if v in s.layers {
        var d :| d in declared && d.version == v;
        assert d in OfVersion(declared, v);
      }
    }
    if KnownVersions(declared, rules) {
      forall v | v in s.overrides ensures v in s.layers { var r :| r in rules && r.version == v; }
    }
  }

  // Every layer serves the same routes.
  ghost predicate SameRoutes(layers: seq<string>, declared: seq<Contract>) {
    forall d, v :: d in declared && v in layers ==> Continues(declared, v, d)
  }

  // So after any run from a bundle without overrides, over layers that serve the same routes, the
  // bundle loads exactly when every override has both its source and its target among the layers.
  lemma LoadsExactly(r: Lifecycle.Run, cs: seq<Lifecycle.Command>, declared: seq<Contract>, rules: seq<Rule>)
    requires StrictlySorted(r.state.layers) && r.state.overrides == map[] && r.removed == {}
    requires var end := Lifecycle.After(r, cs).state;
             Declares(end.layers, declared) && SameRoutes(end.layers, declared) && Written(end.overrides, rules)
    ensures var end := Lifecycle.After(r, cs).state;
            RulesLoad(declared, rules) <==>
                forall v :: v in end.overrides ==> v in end.layers && end.overrides[v] in end.layers
  {
    var end := Lifecycle.After(r, cs).state;
    Lifecycle.RunSound(r, cs);
    OverridesLoadExactly(end, declared, rules);
    if OverridesLead(end, declared) {
      forall v | v in end.overrides ensures end.overrides[v] in end.layers {
        var d :| d in declared && d.version == v;
        var next :| next in declared && next.version == end.overrides[v] && Binds(next, d.route, d.verb);
      }
    }
  }

  // Of the two halves the second fails only by a revival: if the run revives nothing, the bundle loads
  // exactly when every override's source is a layer. If it re-adds nothing removed, exactly when no
  // retired version has been removed: Remove leaves the override behind.
  lemma LoadsUnlessRemoved(r: Lifecycle.Run, cs: seq<Lifecycle.Command>, declared: seq<Contract>, rules: seq<Rule>)
    requires StrictlySorted(r.state.layers) && r.state.overrides == map[] && r.removed == {}
    requires var end := Lifecycle.After(r, cs).state;
             Declares(end.layers, declared) && SameRoutes(end.layers, declared) && Written(end.overrides, rules)
    ensures var end := Lifecycle.After(r, cs);
            Lifecycle.NeverRevives(r, cs) ==>
              (RulesLoad(declared, rules) <==> forall v :: v in end.state.overrides ==> v in end.state.layers)
    ensures var end := Lifecycle.After(r, cs);
            Lifecycle.NeverReadded(r, cs) ==> (RulesLoad(declared, rules) <==> end.state.overrides.Keys !! end.removed)
  {
    LoadsExactly(r, cs, declared, rules);
    Lifecycle.RunSound(r, cs);
    if Lifecycle.NeverReadded(r, cs) { Lifecycle.RunKeepsTargets(r, cs); }
    if Lifecycle.NeverRevives(r, cs) {
      Lifecycle.RunKeepsTargetsExactly(r, cs);
      Lifecycle.AlwaysAtEnd(r, cs);
    }
  }
}
