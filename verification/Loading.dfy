/**
 Bundle loading (internal/bundle/bundle.go, Load): contracts and their selector variants are
 materialised and every chain resolved before the first request is served.
 */
module Loading {
  import opened Json
  import opened Chains
  import opened Rules
  import opened Collections

  datatype Key = Key(version: string, route: string, verb: string)

  datatype Variant = Variant(selectors: Selectors, contract: Contract)

  type VariantMap = map<Key, seq<Variant>>

  datatype Bundle = Bundle(
    contracts: seq<Contract>, byVersion: Index, variants: VariantMap, chains: map<Contract, seq<Contract>>)

  function KeyOf(c: Contract): Key {
    Key(c.version, c.route, c.verb)
  }

  // A contract as its layer declares it, before any rule.
  predicate Declared(c: Contract) {
    c.requestOps == [] && c.responseOps == [] && c.target == "" && c.transformTarget == ""
  }

  function ApplyRule(c: Contract, rule: Rule): Contract {
    match rule.action
    case ToBackend(target) => c.(target := target)
    case ThroughShim(shim) => c.(requestOps := shim.requestOps, responseOps := shim.responseOps,
        transformTarget := shim.target)
  }

  function CanonicalOf(c: Contract, rules: seq<Rule>): Contract
    decreases |rules|
  {
    if rules == [] then c
    else CanonicalOf(if SelectorEmpty(rules[0].selectors) then ApplyRule(c, rules[0]) else c, rules[1..])
  }

  function VariantsOf(declared: Contract, rules: seq<Rule>): seq<Variant> {
    if rules == [] then []
    else
      (if SelectorEmpty(rules[0].selectors) then [] else [Variant(rules[0].selectors, ApplyRule(declared, rules[0]))])
      + VariantsOf(declared, rules[1..])
  }

  function Resolved(d: Contract, rules: seq<Rule>): Contract {
    CanonicalOf(d, RulesFor(rules, d.version))
  }

  function Specialised(d: Contract, rules: seq<Rule>): seq<Variant> {
    VariantsOf(d, RulesFor(rules, d.version))
  }

  function ResolvedAll(declared: seq<Contract>, rules: seq<Rule>): (r: seq<Contract>)
    ensures |r| == |declared|
    ensures forall i :: 0 <= i < |declared| ==> r[i] == Resolved(declared[i], rules)
  {
    seq(|declared|, i requires 0 <= i < |declared| => Resolved(declared[i], rules))
  }

  // c is the canonical contract of d or one of its variants.
  ghost predicate Derived(d: Contract, rules: seq<Rule>, c: Contract) {
    c == Resolved(d, rules) || exists v :: v in Specialised(d, rules) && v.contract == c
  }

  // Every contract the loader resolves a chain for.
  ghost predicate Resolves(declared: seq<Contract>, rules: seq<Rule>, c: Contract) {
    exists d :: d in declared && Derived(d, rules, c)
  }

  function Serves(version: string): Contract -> bool {
    (c: Contract) => c.version == version
  }

  function OfVersion(cs: seq<Contract>, version: string): seq<Contract> {
    Filter(Serves(version), cs)
  }

  ghost predicate Indexed(byVersion: Index, cs: seq<Contract>) {
    && (forall v :: v in byVersion <==> OfVersion(cs, v) != [])
    && (forall v :: v in byVersion ==> byVersion[v] == OfVersion(cs, v))
  }

  ghost predicate DistinctKeys(cs: seq<Contract>) {
    forall i, j :: 0 <= i < j < |cs| ==> KeyOf(cs[i]) != KeyOf(cs[j])
  }

  ghost predicate KnownVersions(declared: seq<Contract>, rules: seq<Rule>) {
    forall r :: r in rules ==> OfVersion(declared, r.version) != []
  }

  ghost predicate VariantsFiled(variants: VariantMap, declared: seq<Contract>, rules: seq<Rule>) {
    && (forall d :: d in declared ==> KeyOf(d) in variants && variants[KeyOf(d)] == Specialised(d, rules))
    && (forall key :: key in variants ==> exists d :: d in declared && KeyOf(d) == key)
  }

  ghost predicate ChainsResolved(chains: map<Contract, seq<Contract>>, byVersion: Index, declared: seq<Contract>,
      rules: seq<Rule>) {
    forall c :: Resolves(declared, rules, c) ==> c in chains && IsChain(byVersion, c, chains[c])
  }

  // What a loaded bundle is, in terms of the layers and rules it was loaded from.
  ghost predicate Loaded(declared: seq<Contract>, rules: seq<Rule>, b: Bundle) {
    && Acceptable(rules) && DistinctKeys(declared) && KnownVersions(declared, rules)
    && b.contracts == ResolvedAll(declared, rules)
    && Indexed(b.byVersion, b.contracts)
    && VariantsFiled(b.variants, declared, rules)
    && ChainsResolved(b.chains, b.byVersion, declared, rules)
  }

  // Some contract's walk cannot become a chain.
  ghost predicate ChainStuck(declared: seq<Contract>, rules: seq<Rule>) {
    exists byVersion, c, w ::
      Indexed(byVersion, ResolvedAll(declared, rules)) && Resolves(declared, rules, c) && IsStuck(byVersion, c, w)
  }

  // --- index ---

  lemma OfVersionMembers(cs: seq<Contract>, version: string)
    ensures forall c :: c in OfVersion(cs, version) <==> c in cs && c.version == version
  {
    FilterMembers(Serves(version), cs);
  }

  lemma IndexedExtends(byVersion: Index, cs: seq<Contract>, c: Contract)
    requires Indexed(byVersion, cs)
    ensures Indexed(byVersion[c.version := (if c.version in byVersion then byVersion[c.version] else []) + [c]],
            cs + [c])
  {
    forall v ensures OfVersion(cs + [c], v) == OfVersion(cs, v) + (if c.version == v then [c] else []) {
      FilterAppend(Serves(v), cs, c);
    }
  }

  lemma IndexedIsFiled(byVersion: Index, cs: seq<Contract>)
    requires Indexed(byVersion, cs)
    ensures Filed(byVersion)
  {
    forall v, c | v in byVersion && c in byVersion[v] ensures c.version == v { OfVersionMembers(cs, v); }
  }

  method BuildIndex(cs: seq<Contract>) returns (byVersion: Index)
    ensures Indexed(byVersion, cs)
  {
    byVersion := map[];
    for i := 0 to |cs|
      invariant Indexed(byVersion, cs[..i])
    {
      var c := cs[i];
      assert cs[..i + 1] == cs[..i] + [c];
      IndexedExtends(byVersion, cs[..i], c);
      byVersion := byVersion[c.version := (if c.version in byVersion then byVersion[c.version] else []) + [c]];
    }
    assert cs[..|cs|] == cs;
  }

  // --- checks ---

  method CheckKeys(declared: seq<Contract>) returns (ok: bool)
    ensures ok <==> DistinctKeys(declared)
  {
    var seen: set<Key> := {};
    for i := 0 to |declared|
      invariant DistinctKeys(declared[..i])
      invariant forall k :: 0 <= k < i ==> KeyOf(declared[k]) in seen
      invariant forall key :: key in seen ==> exists k :: 0 <= k < i && KeyOf(declared[k]) == key
    {
      if KeyOf(declared[i]) in seen {
        return false;
      }
      seen := seen + {KeyOf(declared[i])};
    }
    assert declared[..|declared|] == declared;
    return true;
  }

  // Ranges over the grouped rules in whatever order the map yields.
  method CheckVersions(groups: RuleMap, byVersion: Index, declared: seq<Contract>, ghost rules: seq<Rule>)
      returns (ok: bool)
    requires Grouped(groups, rules) && Indexed(byVersion, declared)
    ensures ok <==> KnownVersions(declared, rules)
  {
    var rest := groups.Keys;
    while rest != {}
      invariant rest <= groups.Keys
      invariant forall v :: v in groups && v !in rest ==> v in byVersion
      decreases |rest|
    {
      var v :| v in rest;
      if v !in byVersion {
        RulesForMembers(rules, v);
        assert groups[v][0] in groups[v] && groups[v][0] in rules && groups[v][0].version == v;
        return false;
      }
      rest := rest - {v};
    }
    forall r | r in rules ensures OfVersion(declared, r.version) != [] {
      RulesForMembers(rules, r.version);
      assert r in RulesFor(rules, r.version);
    }
    return true;
  }

  // --- materialisation ---

  // The version-only rules applied to one contract, and its selector variants.
  method Materialize(declared: Contract, rules: seq<Rule>) returns (canonical: Contract, variants: seq<Variant>)
    ensures canonical == CanonicalOf(declared, rules) && variants == VariantsOf(declared, rules)
  {
    canonical, variants := declared, [];
    for i := 0 to |rules|
      invariant CanonicalOf(declared, rules[..i]) == canonical && VariantsOf(declared, rules[..i]) == variants
    {
      assert rules[..i + 1] == rules[..i] + [rules[i]];
      RuleAppended(declared, declared, rules[..i], rules[i]);
      if SelectorEmpty(rules[i].selectors) {
        canonical := ApplyRule(canonical, rules[i]);
      } else {
        variants := variants + [Variant(rules[i].selectors, ApplyRule(declared, rules[i]))];
      }
    }
    assert rules[..|rules|] == rules;
  }

  lemma {:induction false} RuleAppended(c: Contract, declared: Contract, rules: seq<Rule>, rule: Rule)
    ensures CanonicalOf(c, rules + [rule])
         == if SelectorEmpty(rule.selectors) then ApplyRule(CanonicalOf(c, rules), rule) else CanonicalOf(c, rules)
    ensures VariantsOf(declared, rules + [rule])
         == VariantsOf(declared, rules) + (if SelectorEmpty(rule.selectors) then []
             else [Variant(rule.selectors, ApplyRule(declared, rule))])
    decreases |rules|
  {
    if rules == [] {
      assert rules + [rule] == [rule] && [rule][1..] == [];
    } else {
      assert (rules + [rule])[1..] == rules[1..] + [rule] && (rules + [rule])[0] == rules[0];
      RuleAppended(if SelectorEmpty(rules[0].selectors) then ApplyRule(c, rules[0]) else c, declared, rules[1..], rule);
    }
  }

  // `all` lists exactly the contracts that need a chain.
  ghost predicate Lists(all: seq<Contract>, declared: seq<Contract>, rules: seq<Rule>) {
    forall c :: c in all <==> Resolves(declared, rules, c)
  }

  lemma ListsExtends(all: seq<Contract>, declared: seq<Contract>, rules: seq<Rule>, d: Contract)
    requires Lists(all, declared, rules)
    ensures Lists(all + [Resolved(d, rules)] + ContractsOf(Specialised(d, rules)), declared + [d], rules)
  {
    var specific := Specialised(d, rules);
    var more := all + [Resolved(d, rules)] + ContractsOf(specific);
    forall c ensures c in ContractsOf(specific) <==> exists v :: v in specific && v.contract == c {
      if v :| v in specific && v.contract == c {
        var k :| 0 <= k < |specific| && specific[k] == v;
        assert ContractsOf(specific)[k] == c;
      }
      if c in ContractsOf(specific) {
        var k :| 0 <= k < |specific| && ContractsOf(specific)[k] == c;
        assert specific[k] in specific;
      }
    }
    forall c ensures c in more <==> Resolves(declared + [d], rules, c) {
      if Derived(d, rules, c) {
        assert d in declared + [d];
      } else if x :| x in declared && Derived(x, rules, c) {
        assert x in declared + [d];
      }
    }
  }

  function ContractsOf(vs: seq<Variant>): seq<Contract> {
    seq(|vs|, k requires 0 <= k < |vs| => vs[k].contract)
  }

  lemma VariantsFiledExtends(variants: VariantMap, declared: seq<Contract>, rules: seq<Rule>, d: Contract)
    requires VariantsFiled(variants, declared, rules)
    requires forall x :: x in declared ==> KeyOf(x) != KeyOf(d)
    ensures VariantsFiled(variants[KeyOf(d) := Specialised(d, rules)], declared + [d], rules)
  {
    var all := declared + [d];
    assert d in all;
    forall x | x in declared ensures x in all {}
  }

  ghost predicate AssembledSoFar(declared: seq<Contract>, rules: seq<Rule>, contracts: seq<Contract>,
      variants: VariantMap, all: seq<Contract>)
  {
    contracts == ResolvedAll(declared, rules) && VariantsFiled(variants, declared, rules) && Lists(all, declared, rules)
  }

  lemma AssembledOneMore(declared: seq<Contract>, rules: seq<Rule>, contracts: seq<Contract>, variants: VariantMap,
      all: seq<Contract>, d: Contract)
    requires AssembledSoFar(declared, rules, contracts, variants, all)
    requires forall x :: x in declared ==> KeyOf(x) != KeyOf(d)
    ensures AssembledSoFar(declared + [d], rules, contracts + [Resolved(d, rules)],
            variants[KeyOf(d) := Specialised(d, rules)],
                all + [Resolved(d, rules)] + ContractsOf(Specialised(d, rules)))
  {
    ListsExtends(all, declared, rules, d);
    VariantsFiledExtends(variants, declared, rules, d);
    assert contracts + [Resolved(d, rules)] == ResolvedAll(declared + [d], rules);
  }

  lemma KeyIsNew(declared: seq<Contract>, i: nat)
    requires DistinctKeys(declared) && i < |declared|
    ensures forall x :: x in declared[..i] ==> KeyOf(x) != KeyOf(declared[i])
  {
  }

  method MaterializeOne(d: Contract, groups: RuleMap, ghost rules: seq<Rule>)
    returns (canonical: Contract, specific: seq<Variant>)
    requires Grouped(groups, rules)
    ensures canonical == Resolved(d, rules) && specific == Specialised(d, rules)
  {
    canonical, specific := Materialize(d, if d.version in groups then groups[d.version] else []);
  }

  method Assemble(declared: seq<Contract>, groups: RuleMap, ghost rules: seq<Rule>)
    returns (contracts: seq<Contract>, variants: VariantMap, all: seq<Contract>)
    requires Grouped(groups, rules) && DistinctKeys(declared)
    ensures contracts == ResolvedAll(declared, rules)
    ensures VariantsFiled(variants, declared, rules) && Lists(all, declared, rules)
  {
    contracts, variants, all := [], map[], [];
    for i := 0 to |declared|
      invariant AssembledSoFar(declared[..i], rules, contracts, variants, all)
    {
      var d := declared[i];
      var canonical, specific := MaterializeOne(d, groups, rules);
      assert declared[..i + 1] == declared[..i] + [d];
      KeyIsNew(declared, i);
      AssembledOneMore(declared[..i], rules, contracts, variants, all, d);
      contracts := contracts + [canonical];
      variants := variants[KeyOf(d) := specific];
      all := all + [canonical] + ContractsOf(specific);
    }
    assert declared[..|declared|] == declared;
  }

  // The rules the file parses to are acceptable, no key is declared twice, every rule names a known
  // version and no walk is stuck.
  ghost predicate Loadable(declared: seq<Contract>, ovs: seq<Override>) {
    exists rules :: ParsedAs(ovs, rules) && RulesLoad(declared, rules)
  }

  ghost predicate RulesLoad(declared: seq<Contract>, rules: seq<Rule>) {
    Acceptable(rules) && DistinctKeys(declared) && KnownVersions(declared, rules) && !ChainStuck(declared, rules)
  }

  ghost predicate LoadedFrom(declared: seq<Contract>, ovs: seq<Override>, b: Bundle) {
    exists rules :: ParsedAs(ovs, rules) && Loaded(declared, rules, b)
  }

  lemma {:induction false} ParsedUnique(ovs: seq<Override>, rules: seq<Rule>, other: seq<Rule>)
    requires ParsedAs(ovs, rules) && ParsedAs(ovs, other)
    ensures rules == other
  {
    forall i | 0 <= i < |ovs| ensures Some(rules[i]) == Some(other[i]) {}
  }

  lemma {:induction false} NotLoadable(declared: seq<Contract>, ovs: seq<Override>, rules: seq<Rule>)
    requires ParsedAs(ovs, rules) && !RulesLoad(declared, rules)
    ensures !Loadable(declared, ovs)
  {
    forall other | ParsedAs(ovs, other) ensures !RulesLoad(declared, other) { ParsedUnique(ovs, rules, other); }
  }

  // Loading succeeds exactly on loadable files, and then yields the bundle of the parsed rules.
  method Load(declared: seq<Contract>, ovs: seq<Override>) returns (r: Option<Bundle>)
    ensures r.Some? <==> Loadable(declared, ovs)
    ensures r.Some? ==> LoadedFrom(declared, ovs, r.value)
  {
    var groups, rules := LoadResolution(ovs);
    if groups.None? {
      return None;
    }
    r := LoadRules(declared, groups.value, rules);
    if r.None? {
      NotLoadable(declared, ovs, rules);
    } else {
      LoadedIsNotStuck(declared, rules, r.value);
      assert ParsedAs(ovs, rules) && RulesLoad(declared, rules);
    }
  }

  method LoadRules(declared: seq<Contract>, groups: RuleMap, ghost rules: seq<Rule>) returns (r: Option<Bundle>)
    requires Grouped(groups, rules) && Acceptable(rules)
    ensures r.Some? ==> Loaded(declared, rules, r.value)
    ensures r.None? ==> !RulesLoad(declared, rules)
  {
    var distinct := CheckKeys(declared);
    if !distinct {
      return None;
    }
    var declaredIndex := BuildIndex(declared);
    var known := CheckVersions(groups, declaredIndex, declared, rules);
    if !known {
      return None;
    }
    var contracts, variants, all := Assemble(declared, groups, rules);
    var byVersion := BuildIndex(contracts);
    IndexedIsFiled(byVersion, contracts);
    var chains := ResolveChains(all, byVersion);
    if chains.None? {
      return None;
    }
    return Some(Bundle(contracts, byVersion, variants, chains.value));
  }

  lemma IndexUnique(byVersion: Index, other: Index, cs: seq<Contract>)
    requires Indexed(byVersion, cs) && Indexed(other, cs)
    ensures byVersion == other
  {
    assert byVersion.Keys == other.Keys;
  }

  // A loaded bundle has no stuck walk.
  lemma LoadedIsNotStuck(declared: seq<Contract>, rules: seq<Rule>, b: Bundle)
    requires Loaded(declared, rules, b)
    ensures !ChainStuck(declared, rules)
  {
    forall byVersion, c, w | Indexed(byVersion, ResolvedAll(declared, rules)) && Resolves(declared, rules, c)
      ensures !IsStuck(byVersion, c, w)
    {
      IndexUnique(byVersion, b.byVersion, b.contracts);
      ChainOrStuck(byVersion, c, b.chains[c], w);
    }
  }

  // --- one destination per contract ---

  ghost predicate OneFallback(rules: seq<Rule>) {
    forall i, j :: 0 <= i < j < |rules| ==> !(SelectorEmpty(rules[i].selectors) && SelectorEmpty(rules[j].selectors))
  }

  lemma {:induction false} CanonicalIsFallback(d: Contract, rules: seq<Rule>)
    requires OneFallback(rules)
    ensures forall i :: 0 <= i < |rules| && SelectorEmpty(rules[i].selectors) ==>
            CanonicalOf(d, rules) == ApplyRule(d, rules[i])
    ensures (forall i :: 0 <= i < |rules| ==> !SelectorEmpty(rules[i].selectors)) ==> CanonicalOf(d, rules) == d
    decreases |rules|
  {
    if rules != [] {
      var rest := rules[1..];
      CanonicalIsFallback(if SelectorEmpty(rules[0].selectors) then ApplyRule(d, rules[0]) else d, rest);
      forall i | 0 <= i < |rules| && SelectorEmpty(rules[i].selectors)
        ensures CanonicalOf(d, rules) == ApplyRule(d, rules[i])
      {
        if i > 0 { assert rest[i - 1] == rules[i]; }
      }
      forall k | 0 <= k < |rest| ensures rest[k] == rules[k + 1] {}
    }
  }

  lemma RulesForOneFallback(rules: seq<Rule>, version: string)
    requires Acceptable(rules)
    ensures OneFallback(RulesFor(rules, version))
  {
    RulesForAcceptable(rules, version);
    RulesForMembers(rules, version);
    var mine := RulesFor(rules, version);
    forall i, j | 0 <= i < j < |mine| ensures !(SelectorEmpty(mine[i].selectors) && SelectorEmpty(mine[j].selectors)) {
      assert Compatible(mine[i], mine[j]) && mine[i] in mine && mine[j] in mine;
    }
  }

  lemma {:induction false} VariantsAreRules(d: Contract, rules: seq<Rule>)
    ensures forall v :: v in VariantsOf(d, rules) ==> exists r :: r in rules && v.contract == ApplyRule(d, r)
    decreases |rules|
  {
    if rules != [] {
      VariantsAreRules(d, rules[1..]);
      assert rules[0] in rules && forall r :: r in rules[1..] ==> r in rules;
    }
  }

  // Whatever the loader derives is the declared contract, or that contract under one single rule.
  lemma DerivedByOneRule(d: Contract, rules: seq<Rule>, c: Contract)
    requires Acceptable(rules) && Derived(d, rules, c)
    ensures KeyOf(c) == KeyOf(d)
    ensures c == d || exists r :: r in rules && r.version == d.version && c == ApplyRule(d, r)
  {
    var mine := RulesFor(rules, d.version);
    RulesForMembers(rules, d.version);
    if c == Resolved(d, rules) {
      RulesForOneFallback(rules, d.version);
      CanonicalIsFallback(d, mine);
      if i :| 0 <= i < |mine| && SelectorEmpty(mine[i].selectors) { assert mine[i] in mine; }
    } else {
      VariantsAreRules(d, mine);
    }
  }

  lemma ContractResolves(declared: seq<Contract>, rules: seq<Rule>, c: Contract)
    requires c in ResolvedAll(declared, rules)
    ensures Resolves(declared, rules, c)
  {
    var cs := ResolvedAll(declared, rules);
    var k :| 0 <= k < |cs| && cs[k] == c;
    assert declared[k] in declared && Derived(declared[k], rules, c);
  }

  lemma ResolvesToOneDestination(declared: seq<Contract>, rules: seq<Rule>, c: Contract)
    requires Acceptable(rules) && Resolves(declared, rules, c)
    requires forall d :: d in declared ==> Declared(d)
    ensures OneDestination(c)
  {
    var d :| d in declared && Derived(d, rules, c);
    DerivedByOneRule(d, rules, c);
  }

  lemma ChainMember(declared: seq<Contract>, rules: seq<Rule>, b: Bundle, c: Contract, i: nat)
    requires Loaded(declared, rules, b) && forall d :: d in declared ==> Declared(d)
    requires Resolves(declared, rules, c) && i < |b.chains[c]|
    ensures OneDestination(b.chains[c][i])
    ensures i > 0 ==> b.chains[c][i] in b.contracts && Resolves(declared, rules, b.chains[c][i])
  {
    var chain := b.chains[c];
    IndexedIsFiled(b.byVersion, b.contracts);
    WalkServesOneBinding(b.byVersion, c, chain, i);
    if i > 0 {
      OfVersionMembers(b.contracts, chain[i].version);
      ContractResolves(declared, rules, chain[i]);
    }
    ResolvesToOneDestination(declared, rules, chain[i]);
  }

  lemma ChainMembers(declared: seq<Contract>, rules: seq<Rule>, b: Bundle, c: Contract)
    requires Loaded(declared, rules, b) && forall d :: d in declared ==> Declared(d)
    requires Resolves(declared, rules, c)
    ensures forall x :: x in b.chains[c] ==> OneDestination(x)
    ensures forall i :: 1 <= i < |b.chains[c]| ==> b.chains[c][i] in b.contracts
  {
    forall i | 0 <= i < |b.chains[c]|
      ensures OneDestination(b.chains[c][i]) && (i > 0 ==> b.chains[c][i] in b.contracts)
    {
      ChainMember(declared, rules, b, c, i);
    }
  }

  lemma ChainTail(declared: seq<Contract>, rules: seq<Rule>, b: Bundle, c: Contract)
    requires Loaded(declared, rules, b) && forall d :: d in declared ==> Declared(d)
    requires Resolves(declared, rules, c) && |b.chains[c]| > 1
    ensures b.chains[c][1] in b.chains && b.chains[b.chains[c][1]] == b.chains[c][1..]
  {
    var chain := b.chains[c];
    ChainMembers(declared, rules, b, c);
    ChainMember(declared, rules, b, c, 1);
    IndexedIsFiled(b.byVersion, b.contracts);
    ChainShape(b.byVersion, c, chain);
    assert IsChain(b.byVersion, chain[1], b.chains[chain[1]]);
  }

  // The shape the proxy relies on.
  ghost predicate ProxyReady(b: Bundle, c: Contract) {
    c in b.chains &&
    var chain := b.chains[c];
    && DistinctVersions(chain)
    && (forall i :: 0 <= i < |chain| ==> Binds(chain[i], c.route, c.verb))
    && (forall i :: 1 <= i < |chain| ==> chain[i] in b.contracts)
    && (forall i :: 0 <= i < |chain| - 1 ==> chain[i].target == "")
    && (|chain| > 1 ==> chain[1] in b.chains && b.chains[chain[1]] == chain[1..])
  }

  // Every chain of a loaded bundle has that shape; its tail is the stored chain of its second contract.
  lemma LoadedChainShape(declared: seq<Contract>, rules: seq<Rule>, b: Bundle, c: Contract)
    requires Loaded(declared, rules, b) && forall d :: d in declared ==> Declared(d)
    requires Resolves(declared, rules, c)
    ensures ProxyReady(b, c)
  {
    ChainMembers(declared, rules, b, c);
    if |b.chains[c]| > 1 { ChainTail(declared, rules, b, c); }
    IndexedIsFiled(b.byVersion, b.contracts);
    ChainShape(b.byVersion, c, b.chains[c]);
  }
}
