/**
 The operator's resolution rules (internal/bundle/bundle.go, loadResolution): which files the loader
 accepts, and why an accepted file is never ambiguous.
 */
module Rules {
  import opened Json
  import opened Transform
  import opened Collections

  datatype Selectors = Selectors(profile: string, tenant: string, cohort: string)

  predicate SelectorMatches(rule: Selectors, request: Selectors) {
    && (rule.profile == "" || rule.profile == request.profile)
    && (rule.tenant == "" || rule.tenant == request.tenant)
    && (rule.cohort == "" || rule.cohort == request.cohort)
  }

  predicate SelectorOverlap(a: Selectors, b: Selectors) {
    && (a.profile == "" || b.profile == "" || a.profile == b.profile)
    && (a.tenant == "" || b.tenant == "" || a.tenant == b.tenant)
    && (a.cohort == "" || b.cohort == "" || a.cohort == b.cohort)
  }

  predicate SelectorEmpty(s: Selectors) {
    s == Selectors("", "", "")
  }

  // The overlap test is exact: two rules overlap iff one request matches both.
  lemma OverlapExactly(a: Selectors, b: Selectors)
    ensures SelectorOverlap(a, b) <==> exists r :: SelectorMatches(a, r) && SelectorMatches(b, r)
  {
    if SelectorOverlap(a, b) {
      var r := Selectors(
        if a.profile == "" then b.profile else a.profile,
        if a.tenant == "" then b.tenant else a.tenant,
        if a.cohort == "" then b.cohort else a.cohort);
      assert SelectorMatches(a, r) && SelectorMatches(b, r);
    }
  }

  // --- resolution.yaml ---

  datatype Setting = Unset | NotText | Text(s: string)

  datatype Shim = Shim(requestOps: seq<Op>, responseOps: seq<Op>, target: string)

  // One entry as decoded from YAML, its op stanzas already parsed.
  datatype Override = Override(
    contractVersion: string, profile: Setting, tenant: Setting, cohort: Setting,
    shim: Option<Shim>, route: Option<string>)

  datatype Action = ToBackend(backend: string) | ThroughShim(shim: Shim)

  // One validated entry, its texts trimmed.
  datatype Rule = Rule(version: string, selectors: Selectors, action: Action)

  predicate IsSpace(c: char) {
    c == ' ' || '\t' <= c <= '\r' || c == '\U{85}' || c == '\U{A0}' || c == '\U{1680}' ||
    '\U{2000}' <= c <= '\U{200A}' || c == '\U{2028}' || c == '\U{2029}' || c == '\U{202F}' ||
    c == '\U{205F}' || c == '\U{3000}'
  }

  function TrimLeft(s: string): string {
    if s != "" && IsSpace(s[0]) then TrimLeft(s[1..]) else s
  }

  function TrimRight(s: string): string {
    if s != "" && IsSpace(s[|s| - 1]) then TrimRight(s[..|s| - 1]) else s
  }

  function TrimSpace(s: string): string {
    TrimRight(TrimLeft(s))
  }

  function SettingValue(s: Setting): Option<string> {
    match s
    case Unset => Some("")
    case NotText => None
    case Text(t) => if TrimSpace(t) == "" then None else Some(TrimSpace(t))
  }

  function ResolutionSelectors(ov: Override): Option<Selectors> {
    match (SettingValue(ov.profile), SettingValue(ov.tenant), SettingValue(ov.cohort))
    case (Some(p), Some(t), Some(c)) => Some(Selectors(p, t, c))
    case _ => None
  }

  // The checks on one entry alone.
  function ParseRule(ov: Override): Option<Rule> {
    var version := TrimSpace(ov.contractVersion);
    var selectors := ResolutionSelectors(ov);
    if version == "" || selectors.None? then None
    else
      match (ov.shim, ov.route)
      case (Some(shim), None) => Some(Rule(version, selectors.value,
          ThroughShim(shim.(target := TrimSpace(shim.target)))))
      case (None, Some(target)) =>
        if TrimSpace(target) == "" then None
        else Some(Rule(version, selectors.value, ToBackend(TrimSpace(target))))
      case _ => None
  }

  // Two rules for one version that the loader refuses together.
  predicate Compete(a: Selectors, b: Selectors) {
    if SelectorEmpty(a) then SelectorEmpty(b) else !SelectorEmpty(b) && SelectorOverlap(a, b)
  }

  predicate Compatible(a: Rule, b: Rule) {
    a.version == b.version ==> !Compete(a.selectors, b.selectors)
  }

  ghost predicate Acceptable(rules: seq<Rule>) {
    forall i, j :: 0 <= i < j < |rules| ==> Compatible(rules[i], rules[j])
  }

  function IsFor(version: string): Rule -> bool {
    (rule: Rule) => rule.version == version
  }

  function RulesFor(rules: seq<Rule>, version: string): seq<Rule> {
    Filter(IsFor(version), rules)
  }

  lemma RulesForMembers(rules: seq<Rule>, version: string)
    ensures forall r :: r in RulesFor(rules, version) <==> r in rules && r.version == version
  {
    FilterMembers(IsFor(version), rules);
  }

  lemma {:induction false} RulesForAcceptable(rules: seq<Rule>, version: string)
    requires Acceptable(rules)
    ensures Acceptable(RulesFor(rules, version))
    decreases |rules|
  {
    if rules != [] {
      var rest := rules[1..];
      forall i, j | 0 <= i < j < |rest| ensures Compatible(rest[i], rest[j]) {
        assert Compatible(rules[i + 1], rules[j + 1]);
      }
      RulesForAcceptable(rest, version);
      var mine, all := RulesFor(rest, version), RulesFor(rules, version);
      RulesForMembers(rest, version);
      forall i, j | 0 <= i < j < |all| ensures Compatible(all[i], all[j]) {
        if |all| == |mine| + 1 {
          assert all[j] == mine[j - 1] && mine[j - 1] in rest;
          var k :| 0 <= k < |rest| && rest[k] == all[j];
          assert Compatible(rules[0], rules[k + 1]);
          assert i > 0 ==> all[i] == mine[i - 1];
        }
      }
    }
  }

  type RuleMap = map<string, seq<Rule>>

  ghost predicate Grouped(groups: RuleMap, rules: seq<Rule>) {
    && (forall v :: RulesFor(rules, v) == (if v in groups then groups[v] else []))
    && (forall v :: v in groups ==> groups[v] != [])
  }

  ghost predicate ParsedAs(ovs: seq<Override>, rules: seq<Rule>) {
    |ovs| == |rules| && forall i :: 0 <= i < |ovs| ==> ParseRule(ovs[i]) == Some(rules[i])
  }

  ghost predicate AcceptableFile(ovs: seq<Override>) {
    exists rules :: ParsedAs(ovs, rules) && Acceptable(rules)
  }

  method FindCompeting(existing: seq<Rule>, rule: Rule) returns (found: bool)
    ensures found <==> exists e :: e in existing && Compete(e.selectors, rule.selectors)
  {
    for k := 0 to |existing|
      invariant forall n :: 0 <= n < k ==> !Compete(existing[n].selectors, rule.selectors)
    {
      if Compete(existing[k].selectors, rule.selectors) {
        assert existing[k] in existing;
        return true;
      }
    }
    return false;
  }

  lemma AcceptableExtends(rules: seq<Rule>, rule: Rule)
    requires Acceptable(rules)
    ensures Acceptable(rules + [rule])
       <==> !exists e :: e in RulesFor(rules, rule.version) && Compete(e.selectors, rule.selectors)
  {
    var all := rules + [rule];
    RulesForMembers(rules, rule.version);
    if e :| e in RulesFor(rules, rule.version) && Compete(e.selectors, rule.selectors) {
      var i :| 0 <= i < |rules| && rules[i] == e;
      assert !Compatible(all[i], all[|rules|]);
    } else {
      forall i, j | 0 <= i < j < |all| ensures Compatible(all[i], all[j]) {
        if j == |rules| && rules[i].version == rule.version { assert rules[i] in RulesFor(rules, rule.version); }
      }
    }
  }

  lemma PrefixAcceptable(rules: seq<Rule>, i: nat)
    requires i <= |rules|
    ensures Acceptable(rules) ==> Acceptable(rules[..i])
  {
  }

  lemma ParsedExtends(ovs: seq<Override>, rules: seq<Rule>, i: nat, rule: Rule)
    requires i < |ovs| && ParsedAs(ovs[..i], rules) && ParseRule(ovs[i]) == Some(rule)
    ensures ParsedAs(ovs[..i + 1], rules + [rule])
  {
    var all := rules + [rule];
    forall k | 0 <= k < i + 1 ensures ParseRule(ovs[..i + 1][k]) == Some(all[k]) {
      if k < i { assert ovs[..i + 1][k] == ovs[..i][k]; }
    }
  }

  lemma UnparsedAt(ovs: seq<Override>, i: nat)
    requires i < |ovs| && ParseRule(ovs[i]).None?
    ensures !AcceptableFile(ovs)
  {
  }

  lemma ParsedPrefix(ovs: seq<Override>, rules: seq<Rule>, i: nat, rule: Rule, other: seq<Rule>)
    requires i < |ovs| && ParsedAs(ovs[..i], rules) && ParseRule(ovs[i]) == Some(rule) && ParsedAs(ovs, other)
    ensures other[..i + 1] == rules + [rule]
  {
    forall k | 0 <= k < i ensures Some(other[k]) == Some(rules[k]) {
      assert ovs[..i][k] == ovs[k];
    }
    assert Some(other[i]) == Some(rule);
  }

  lemma RefusedAt(ovs: seq<Override>, rules: seq<Rule>, i: nat, rule: Rule)
    requires i < |ovs| && ParsedAs(ovs[..i], rules) && ParseRule(ovs[i]) == Some(rule)
    requires !Acceptable(rules + [rule])
    ensures !AcceptableFile(ovs)
  {
    forall other | ParsedAs(ovs, other) ensures !Acceptable(other) {
      ParsedPrefix(ovs, rules, i, rule, other);
      PrefixAcceptable(other, i + 1);
    }
  }

  // Refuses exactly the files that do not parse to acceptable rules, and groups the others by version.
  method LoadResolution(ovs: seq<Override>) returns (groups: Option<RuleMap>, ghost rules: seq<Rule>)
    ensures groups.Some? ==> ParsedAs(ovs, rules) && Acceptable(rules) && Grouped(groups.value, rules)
    ensures groups.None? ==> !AcceptableFile(ovs)
  {
    var out: RuleMap := map[];
    rules := [];
    for i := 0 to |ovs|
      invariant ParsedAs(ovs[..i], rules) && Acceptable(rules) && Grouped(out, rules)
    {
      var parsed := ParseRule(ovs[i]);
      if parsed.None? {
        UnparsedAt(ovs, i);
        return None, rules;
      }
      var rule := parsed.value;
      var existing := if rule.version in out then out[rule.version] else [];
      AcceptableExtends(rules, rule);
      var competing := FindCompeting(existing, rule);
      if competing {
        RefusedAt(ovs, rules, i, rule);
        return None, rules;
      }
      GroupedExtends(out, rules, rule);
      ParsedExtends(ovs, rules, i, rule);
      out := out[rule.version := existing + [rule]];
      rules := rules + [rule];
    }
    assert ovs[..|ovs|] == ovs;
    return Some(out), rules;
  }

  lemma GroupedExtends(out: RuleMap, rules: seq<Rule>, rule: Rule)
    requires Grouped(out, rules)
    ensures Grouped(out[rule.version := (if rule.version in out then out[rule.version] else []) + [rule]],
            rules + [rule])
  {
    forall v ensures RulesFor(rules + [rule], v) == RulesFor(rules, v) + (if rule.version == v then [rule] else []) {
      FilterAppend(IsFor(v), rules, rule);
    }
  }

  // In an accepted file at most one selector rule of a version matches a request.
  lemma AtMostOneMatch(rules: seq<Rule>, i: nat, j: nat, request: Selectors)
    requires Acceptable(rules) && i < |rules| && j < |rules| && rules[i].version == rules[j].version
    requires !SelectorEmpty(rules[i].selectors) && !SelectorEmpty(rules[j].selectors)
    requires SelectorMatches(rules[i].selectors, request) && SelectorMatches(rules[j].selectors, request)
    ensures i == j
  {
    OverlapExactly(rules[i].selectors, rules[j].selectors);
    OverlapExactly(rules[j].selectors, rules[i].selectors);
    assert !Compatible(rules[i], rules[j]) && !Compatible(rules[j], rules[i]);
  }

  lemma TwiceIn<T>(s: seq<T>, x: T)
    requires multiset(s)[x] >= 2
    ensures exists i, j :: 0 <= i < j < |s| && s[i] == x && s[j] == x
    decreases |s|
  {
    var t := s[..|s| - 1];
    assert s == t + [s[|s| - 1]];
    if multiset(t)[x] >= 2 {
      TwiceIn(t, x);
      var i, j :| 0 <= i < j < |t| && t[i] == x && t[j] == x;
      assert s[i] == x && s[j] == x;
    } else {
      assert s[|s| - 1] == x && x in t;
      var i :| 0 <= i < |t| && t[i] == x;
      assert s[i] == x && s[|s| - 1] == x;
    }
  }

  lemma TwiceOut<T>(s: seq<T>, i: nat, j: nat)
    requires i < j < |s| && s[i] == s[j]
    ensures multiset(s)[s[i]] >= 2
  {
    assert s == s[..j] + s[j..];
    assert s[i] in s[..j] && s[j] in s[j..];
  }

  // Acceptance does not depend on the order of the rules.
  lemma AcceptableAnyOrder(rules: seq<Rule>, other: seq<Rule>)
    requires Acceptable(rules) && multiset(rules) == multiset(other)
    ensures Acceptable(other)
  {
    forall i, j | 0 <= i < j < |other| ensures Compatible(other[i], other[j]) {
      if other[i] == other[j] {
        TwiceOut(other, i, j);
        TwiceIn(rules, other[i]);
      } else {
        assert other[i] in multiset(rules) && other[j] in multiset(rules);
        var m :| 0 <= m < |rules| && rules[m] == other[i];
        var n :| 0 <= n < |rules| && rules[n] == other[j];
        assert if m < n then Compatible(rules[m], rules[n]) else Compatible(rules[n], rules[m]);
      }
    }
  }
}
