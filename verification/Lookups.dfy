/**
 Request-time lookup (internal/bundle/bundle.go, Lookup and LookupRoute) on a loaded bundle: one
 answer per request, determined by the rules as a collection and not by their order.
 */
module Lookups {
  import opened Json
  import opened Chains
  import opened Rules
  import opened Loading

  function FirstVariant(vs: seq<Variant>, request: Selectors): Option<Contract> {
    if vs == [] then None
    else if SelectorMatches(vs[0].selectors, request) then Some(vs[0].contract)
    else FirstVariant(vs[1..], request)
  }

  function Find(b: Bundle, path: string, verb: string, version: string, request: Selectors): Option<Contract> {
    if version !in b.byVersion then None
    else
      match FirstBinding(b.byVersion[version], path, verb)
      case None => None
      case Some(c) =>
        var key := Key(version, path, verb);
        match FirstVariant(if key in b.variants then b.variants[key] else [], request)
        case Some(v) => Some(v)
        case None => Some(c)
  }

  method Lookup(b: Bundle, path: string, verb: string, version: string, request: Selectors)
      returns (r: Option<Contract>)
    ensures r == Find(b, path, verb, version, request)
  {
    if version !in b.byVersion {
      return None;
    }
    var cs := b.byVersion[version];
    for i := 0 to |cs|
      invariant FirstBinding(cs, path, verb) == FirstBinding(cs[i..], path, verb)
    {
      assert cs[i..][1..] == cs[i + 1..];
      if Binds(cs[i], path, verb) {
        var key := Key(version, path, verb);
        var vs := if key in b.variants then b.variants[key] else [];
        for k := 0 to |vs|
          invariant FirstVariant(vs, request) == FirstVariant(vs[k..], request)
        {
          assert vs[k..][1..] == vs[k + 1..];
          if SelectorMatches(vs[k].selectors, request) {
            return Some(vs[k].contract);
          }
        }
        return Some(cs[i]);
      }
    }
    return None;
  }

  method LookupRoute(b: Bundle, path: string, verb: string) returns (r: Option<Contract>)
    ensures r == FirstBinding(b.contracts, path, verb)
  {
    var cs := b.contracts;
    for i := 0 to |cs|
      invariant FirstBinding(cs, path, verb) == FirstBinding(cs[i..], path, verb)
    {
      assert cs[i..][1..] == cs[i + 1..];
      if Binds(cs[i], path, verb) {
        return Some(cs[i]);
      }
    }
    return None;
  }

  // --- the answer, with no order in it ---

  predicate Selects(r: Rule, version: string, request: Selectors) {
    r.version == version && !SelectorEmpty(r.selectors) && SelectorMatches(r.selectors, request)
  }

  predicate FallsBack(r: Rule, version: string) {
    r.version == version && SelectorEmpty(r.selectors)
  }

  // The contract a request gets from declared contract d: the matching selector rule if there is
  // one, else the version-only rule if there is one, else the contract as declared.
  ghost predicate IsChoice(d: Contract, rules: seq<Rule>, request: Selectors, c: Contract) {
    if exists r :: r in rules && Selects(r, d.version, request) then
      exists r :: r in rules && Selects(r, d.version, request) && c == ApplyRule(d, r)
    else if exists r :: r in rules && FallsBack(r, d.version) then
      exists r :: r in rules && FallsBack(r, d.version) && c == ApplyRule(d, r)
    else c == d
  }

  ghost predicate IsAnswer(declared: seq<Contract>, rules: seq<Rule>, key: Key, request: Selectors,
      answer: Option<Contract>) {
    match answer
    case None => forall d :: d in declared ==> KeyOf(d) != key
    case Some(c) => exists d :: d in declared && KeyOf(d) == key && IsChoice(d, rules, request, c)
  }

  lemma {:induction false} FirstVariantExactly(d: Contract, rules: seq<Rule>, request: Selectors)
    ensures match FirstVariant(VariantsOf(d, rules), request)
            case Some(c) => exists r :: r in rules && !SelectorEmpty(r.selectors)
                              && SelectorMatches(r.selectors, request) && c == ApplyRule(d, r)
            case None => forall r :: r in rules && !SelectorEmpty(r.selectors) ==>
                !SelectorMatches(r.selectors, request)
    decreases |rules|
  {
    if rules != [] {
      var rest := rules[1..];
      FirstVariantExactly(d, rest, request);
      assert rules == [rules[0]] + rest;
      if !SelectorEmpty(rules[0].selectors) {
        assert VariantsOf(d, rules)[1..] == VariantsOf(d, rest);
      } else {
        assert VariantsOf(d, rules) == VariantsOf(d, rest);
      }
    }
  }

  lemma ChoiceFromRules(d: Contract, rules: seq<Rule>, request: Selectors)
    requires Acceptable(rules)
    ensures IsChoice(d, rules, request,
              match FirstVariant(Specialised(d, rules), request) case Some(c) => c case None => Resolved(d, rules))
  {
    var mine := RulesFor(rules, d.version);
    RulesForMembers(rules, d.version);
    FirstVariantExactly(d, mine, request);
    RulesForOneFallback(rules, d.version);
    CanonicalIsFallback(d, mine);
    forall r | r in rules && r.version == d.version
        ensures exists i :: 0 <= i < |mine| && mine[i] == r { assert r in mine; }
    forall i | 0 <= i < |mine| ensures mine[i] in rules && mine[i].version == d.version { assert mine[i] in mine; }
  }

  lemma KeysKept(declared: seq<Contract>, rules: seq<Rule>, i: nat)
    requires Acceptable(rules) && i < |declared|
    ensures KeyOf(ResolvedAll(declared, rules)[i]) == KeyOf(declared[i])
  {
    DerivedByOneRule(declared[i], rules, Resolved(declared[i], rules));
  }

  lemma FindHits(declared: seq<Contract>, rules: seq<Rule>, b: Bundle, key: Key, request: Selectors, d: Contract)
    requires Loaded(declared, rules, b) && d in declared && KeyOf(d) == key
    ensures Find(b, key.route, key.verb, key.version, request)
         == Some(match FirstVariant(Specialised(d, rules), request) case Some(c) => c case None => Resolved(d, rules))
  {
    var i :| 0 <= i < |declared| && declared[i] == d;
    KeysKept(declared, rules, i);
    OfVersionMembers(b.contracts, key.version);
    assert b.contracts[i] in b.contracts && b.contracts[i] in OfVersion(b.contracts, key.version);
    var found := FirstBinding(b.byVersion[key.version], key.route, key.verb).value;
    var k :| 0 <= k < |b.contracts| && b.contracts[k] == found;
    KeysKept(declared, rules, k);
    assert KeyOf(declared[k]) == key;
    assert k == i;
  }

  lemma FindMisses(declared: seq<Contract>, rules: seq<Rule>, b: Bundle, key: Key, request: Selectors)
    requires Loaded(declared, rules, b) && forall d :: d in declared ==> KeyOf(d) != key
    ensures Find(b, key.route, key.verb, key.version, request).None?
  {
    if key.version in b.byVersion {
      OfVersionMembers(b.contracts, key.version);
      forall c | c in b.byVersion[key.version] ensures !Binds(c, key.route, key.verb) {
        var k :| 0 <= k < |b.contracts| && b.contracts[k] == c;
        KeysKept(declared, rules, k);
        assert declared[k] in declared;
      }
    }
  }

  // A lookup on a loaded bundle returns the answer.
  lemma FindIsAnswer(declared: seq<Contract>, rules: seq<Rule>, b: Bundle, key: Key, request: Selectors)
    requires Loaded(declared, rules, b)
    ensures IsAnswer(declared, rules, key, request, Find(b, key.route, key.verb, key.version, request))
  {
    if d :| d in declared && KeyOf(d) == key {
      FindHits(declared, rules, b, key, request, d);
      ChoiceFromRules(d, rules, request);
    } else {
      FindMisses(declared, rules, b, key, request);
    }
  }

  lemma ChoiceUnique(d: Contract, rules: seq<Rule>, other: seq<Rule>, request: Selectors, c: Contract, c': Contract)
    requires Acceptable(rules) && forall r :: r in rules <==> r in other
    requires IsChoice(d, rules, request, c) && IsChoice(d, other, request, c')
    ensures c == c'
  {
    forall x, y | x in rules && y in rules && Selects(x, d.version, request) && Selects(y, d.version, request)
        ensures x == y {
      var i :| 0 <= i < |rules| && rules[i] == x;
      var j :| 0 <= j < |rules| && rules[j] == y;
      AtMostOneMatch(rules, i, j, request);
    }
    forall x, y | x in rules && y in rules && FallsBack(x, d.version) && FallsBack(y, d.version) ensures x == y {
      var i :| 0 <= i < |rules| && rules[i] == x;
      var j :| 0 <= j < |rules| && rules[j] == y;
      assert !Compatible(rules[i], rules[j]) && !Compatible(rules[j], rules[i]);
    }
  }

  // The answer is unique: a function of the layers, the rules as a collection, and the request.
  lemma AnswerUnique(declared: seq<Contract>, rules: seq<Rule>, other: seq<Rule>, key: Key, request: Selectors,
      a: Option<Contract>, a': Option<Contract>)
    requires Acceptable(rules) && multiset(rules) == multiset(other) && DistinctKeys(declared)
    requires IsAnswer(declared, rules, key, request, a) && IsAnswer(declared, other, key, request, a')
    ensures a == a'
  {
    forall r ensures r in rules <==> r in other { assert r in multiset(rules) <==> r in multiset(other); }
    if a.Some? && a'.Some? {
      var d :| d in declared && KeyOf(d) == key && IsChoice(d, rules, request, a.value);
      var d' :| d' in declared && KeyOf(d') == key && IsChoice(d', other, request, a'.value);
      var i :| 0 <= i < |declared| && declared[i] == d;
      var j :| 0 <= j < |declared| && declared[j] == d';
      assert i == j;
      ChoiceUnique(d, rules, other, request, a.value, a'.value);
    }
  }

  // Resolution is never order-dependent: bundles loaded from the same layers and the same rules in
  // any two orders answer every request alike.
  lemma LookupAnyOrder(declared: seq<Contract>, rules: seq<Rule>, other: seq<Rule>, b: Bundle, b': Bundle,
      path: string, verb: string, version: string, request: Selectors)
    requires multiset(rules) == multiset(other) && Loaded(declared, rules, b) && Loaded(declared, other, b')
    ensures Find(b, path, verb, version, request) == Find(b', path, verb, version, request)
  {
    var key := Key(version, path, verb);
    FindIsAnswer(declared, rules, b, key, request);
    FindIsAnswer(declared, other, b', key, request);
    AnswerUnique(declared, rules, other, key, request,
      Find(b, path, verb, version, request), Find(b', path, verb, version, request));
  }

  // The route gate opens exactly when some version can serve the request.
  lemma RouteGateExactly(b: Bundle, path: string, verb: string, request: Selectors)
    requires Indexed(b.byVersion, b.contracts)
    ensures FirstBinding(b.contracts, path, verb).Some? <==>
            exists version :: Find(b, path, verb, version, request).Some?
  {
    if FirstBinding(b.contracts, path, verb).Some? {
      var c := FirstBinding(b.contracts, path, verb).value;
      OfVersionMembers(b.contracts, c.version);
      assert c in OfVersion(b.contracts, c.version);
      assert Find(b, path, verb, c.version, request).Some?;
    }
    if version :| Find(b, path, verb, version, request).Some? {
      OfVersionMembers(b.contracts, version);
      var c := FirstBinding(b.byVersion[version], path, verb).value;
      assert c in OfVersion(b.contracts, version);
    }
  }
}
