/**
 From resolution.yaml to the wire (internal/bundle/bundle.go and internal/server/http.go): what a
 loaded bundle does to a request, read off the override entries as the operator wrote them, without
 the parsed rules and without the materialised contracts.
 */
module Serving {
  import opened Json
  import opened Transform
  import opened Chains
  import opened Rules
  import opened Loading
  import opened Lookups
  import MirrorLaws
  import Meaning

  // --- the text of an entry ---

  // t is s without the white space around it.
  ghost predicate Trimmed(s: string, t: string) {
    exists i, j :: TrimmedAt(s, i, j) && t == s[i..j]
  }

  predicate TrimmedAt(s: string, i: int, j: int) {
    && 0 <= i <= j <= |s|
    && (forall k | 0 <= k < |s| :: k < i || j <= k ==> IsSpace(s[k]))
    && (i < j ==> !IsSpace(s[i]) && !IsSpace(s[j - 1]))
  }

  lemma {:induction false} TrimLeftAt(s: string) returns (i: nat)
    ensures i <= |s| && TrimLeft(s) == s[i..] && forall k :: 0 <= k < i ==> IsSpace(s[k])
    ensures i < |s| ==> !IsSpace(s[i])
    decreases |s|
  {
    i := 0;
    if s != "" && IsSpace(s[0]) {
      i := TrimLeftAt(s[1..]);
      assert forall k :: 1 <= k < i + 1 ==> s[k] == s[1..][k - 1];
      i := i + 1;
    }
  }

  lemma {:induction false} TrimRightAt(s: string) returns (j: nat)
    ensures j <= |s| && TrimRight(s) == s[..j] && forall k :: j <= k < |s| ==> IsSpace(s[k])
    ensures 0 < j ==> !IsSpace(s[j - 1])
    decreases |s|
  {
    j := |s|;
    if s != "" && IsSpace(s[|s| - 1]) {
      var t := s[..|s| - 1];
      j := TrimRightAt(t);
      assert t[..j] == s[..j] && forall k :: j <= k < |t| ==> t[k] == s[k];
    } else {
      assert s[..|s|] == s;
    }
  }

  lemma TrimSpaceExactly(s: string, t: string)
    ensures TrimSpace(s) == t <==> Trimmed(s, t)
  {
    var i := TrimLeftAt(s);
    var left := s[i..];
    var n := TrimRightAt(left);
    var j := i + n;
    assert left[..n] == s[i..j] && forall k :: i <= k < |s| ==> s[k] == left[k - i];
    if i < j { assert s[j - 1] == left[n - 1] && s[i] == left[0]; }
    assert TrimmedAt(s, i, j);
    if Trimmed(s, t) {
      var i', j' :| TrimmedAt(s, i', j') && t == s[i'..j'];
      TrimmedOnce(s, i, j, i', j');
    }
  }

  lemma TrimmedOnce(s: string, i: int, j: int, i': int, j': int)
    requires TrimmedAt(s, i, j) && TrimmedAt(s, i', j')
    ensures s[i..j] == s[i'..j']
  {
  }

  // The value an axis of the entry stands for: nothing when unset, else its text, which must not be blank.
  ghost predicate AxisSays(setting: Setting, value: string) {
    match setting
    case Unset => value == ""
    case NotText => false
    case Text(t) => value != "" && Trimmed(t, value)
  }

  ghost predicate Admits(setting: Setting, requested: string) {
    setting.Unset? || AxisSays(setting, requested)
  }

  ghost predicate Matches(ov: Override, request: Selectors) {
    Admits(ov.profile, request.profile) && Admits(ov.tenant, request.tenant) && Admits(ov.cohort, request.cohort)
  }

  // The entry restricts some axis; otherwise it is its version's fallback.
  predicate Selective(ov: Override) {
    !(ov.profile.Unset? && ov.tenant.Unset? && ov.cohort.Unset?)
  }

  ghost predicate Names(ov: Override, version: string) {
    version != "" && Trimmed(ov.contractVersion, version)
  }

  // What c carries when the entry is all that was installed on it.
  ghost predicate Carries(c: Contract, ov: Override) {
    match (ov.shim, ov.route)
    case (Some(shim), None) =>
      && c.requestOps == shim.requestOps && c.responseOps == shim.responseOps
      && Trimmed(shim.target, c.transformTarget) && c.target == ""
    case (None, Some(backend)) =>
      && c.requestOps == [] && c.responseOps == [] && c.transformTarget == ""
      && c.target != "" && Trimmed(backend, c.target)
    case _ => false
  }

  lemma SettingExactly(setting: Setting, value: string)
    ensures SettingValue(setting) == Some(value) <==> AxisSays(setting, value)
  {
    if setting.Text? { TrimSpaceExactly(setting.s, value); }
  }

  // The rule an entry parses to, told from the entry.
  ghost predicate Reads(ov: Override, r: Rule) {
    && Names(ov, r.version)
    && AxisSays(ov.profile, r.selectors.profile) && AxisSays(ov.tenant, r.selectors.tenant)
    && AxisSays(ov.cohort, r.selectors.cohort)
    && forall c :: Declared(c) ==> Carries(ApplyRule(c, r), ov)
  }

  lemma ReadsItsAxes(ov: Override, r: Rule)
    requires ParseRule(ov) == Some(r)
    ensures AxisSays(ov.profile, r.selectors.profile) && AxisSays(ov.tenant, r.selectors.tenant)
    ensures AxisSays(ov.cohort, r.selectors.cohort)
    ensures SelectorEmpty(r.selectors) <==> !Selective(ov)
  {
    SettingExactly(ov.profile, r.selectors.profile);
    SettingExactly(ov.tenant, r.selectors.tenant);
    SettingExactly(ov.cohort, r.selectors.cohort);
  }

  lemma ParsedReads(ov: Override, r: Rule)
    requires ParseRule(ov) == Some(r)
    ensures Reads(ov, r)
  {
    ReadsItsAxes(ov, r);
    TrimSpaceExactly(ov.contractVersion, r.version);
    if ov.shim.Some? {
      TrimSpaceExactly(ov.shim.value.target, TrimSpace(ov.shim.value.target));
    } else {
      TrimSpaceExactly(ov.route.value, TrimSpace(ov.route.value));
    }
  }

  // An entry the loader can read: it names a version, no axis it sets is blank or not a text, and it
  // has exactly one of a shim and a backend that is not blank.
  ghost predicate Readable(ov: Override) {
    && (exists version :: Names(ov, version))
    && (exists v :: AxisSays(ov.profile, v)) && (exists v :: AxisSays(ov.tenant, v))
        && (exists v :: AxisSays(ov.cohort, v))
    && ov.shim.Some? != ov.route.Some?
    && (ov.route.Some? ==> exists backend :: backend != "" && Trimmed(ov.route.value, backend))
  }

  lemma AxisReadable(setting: Setting)
    ensures SettingValue(setting).Some? <==> exists v :: AxisSays(setting, v)
  {
    if SettingValue(setting).Some? { SettingExactly(setting, SettingValue(setting).value); }
    if v :| AxisSays(setting, v) { SettingExactly(setting, v); }
  }

  lemma TextReadable(s: string)
    ensures TrimSpace(s) != "" <==> exists t :: t != "" && Trimmed(s, t)
  {
    TrimSpaceExactly(s, TrimSpace(s));
    if t :| t != "" && Trimmed(s, t) { TrimSpaceExactly(s, t); }
  }

  lemma ReadableExactly(ov: Override)
    ensures ParseRule(ov).Some? <==> Readable(ov)
  {
    AxisReadable(ov.profile);
    AxisReadable(ov.tenant);
    AxisReadable(ov.cohort);
    TextReadable(ov.contractVersion);
    if v :| Names(ov, v) { TrimSpaceExactly(ov.contractVersion, v); }
    if TrimSpace(ov.contractVersion) != "" {
      TrimSpaceExactly(ov.contractVersion, TrimSpace(ov.contractVersion));
      assert Names(ov, TrimSpace(ov.contractVersion));
    }
    if ov.route.Some? { TextReadable(ov.route.value); }
  }

  lemma AxisAdmits(setting: Setting, value: string, requested: string)
    requires AxisSays(setting, value)
    ensures Admits(setting, requested) <==> value == "" || value == requested
  {
    SettingExactly(setting, value);
    SettingExactly(setting, requested);
  }

  lemma MatchesExactly(ov: Override, r: Rule, request: Selectors)
    requires ParseRule(ov) == Some(r)
    ensures Matches(ov, request) <==> SelectorMatches(r.selectors, request)
  {
    ReadsItsAxes(ov, r);
    AxisAdmits(ov.profile, r.selectors.profile, request.profile);
    AxisAdmits(ov.tenant, r.selectors.tenant, request.tenant);
    AxisAdmits(ov.cohort, r.selectors.cohort, request.cohort);
  }

  lemma NamesExactly(ov: Override, r: Rule, version: string)
    requires ParseRule(ov) == Some(r)
    ensures Names(ov, version) <==> version == r.version
  {
    TrimSpaceExactly(ov.contractVersion, version);
  }

  // --- which files load ---

  // Two entries of one version that are both fallbacks, or that some request satisfies together.
  ghost predicate Ambiguous(a: Override, b: Override) {
    && (exists version :: Names(a, version) && Names(b, version))
    && if Selective(a) then Selective(b) && exists request :: Matches(a, request) && Matches(b, request)
       else !Selective(b)
  }

  lemma AmbiguousExactly(a: Override, b: Override, x: Rule, y: Rule)
    requires ParseRule(a) == Some(x) && ParseRule(b) == Some(y)
    ensures Ambiguous(a, b) <==> !Compatible(x, y)
  {
    NamesExactly(a, x, x.version);
    NamesExactly(b, y, x.version);
    if v :| Names(a, v) && Names(b, v) {
      NamesExactly(a, x, v);
      NamesExactly(b, y, v);
    }
    ReadsItsAxes(a, x);
    ReadsItsAxes(b, y);
    OverlapExactly(x.selectors, y.selectors);
    forall request
      ensures Matches(a, request) && Matches(b, request) <==>
              SelectorMatches(x.selectors, request) && SelectorMatches(y.selectors, request)
    {
      MatchesExactly(a, x, request);
      MatchesExactly(b, y, request);
    }
  }

  ghost predicate FileAcceptable(ovs: seq<Override>) {
    && (forall i :: 0 <= i < |ovs| ==> Readable(ovs[i]))
    && (forall i, j :: 0 <= i < j < |ovs| ==> !Ambiguous(ovs[i], ovs[j]))
  }

  lemma ParsedAcceptable(ovs: seq<Override>, rules: seq<Rule>)
    requires ParsedAs(ovs, rules)
    ensures Acceptable(rules) <==> forall i, j :: 0 <= i < j < |ovs| ==> !Ambiguous(ovs[i], ovs[j])
  {
    forall i, j | 0 <= i < j < |ovs| ensures Ambiguous(ovs[i], ovs[j]) <==> !Compatible(rules[i], rules[j]) {
      assert ParseRule(ovs[i]) == Some(rules[i]) && ParseRule(ovs[j]) == Some(rules[j]);
      AmbiguousExactly(ovs[i], ovs[j], rules[i], rules[j]);
    }
  }

  // The loader accepts a file exactly when every entry is readable and no two are ambiguous.
  lemma AcceptableFileExactly(ovs: seq<Override>)
    ensures AcceptableFile(ovs) <==> FileAcceptable(ovs)
  {
    forall i | 0 <= i < |ovs| ensures ParseRule(ovs[i]).Some? <==> Readable(ovs[i]) { ReadableExactly(ovs[i]); }
    if rules :| ParsedAs(ovs, rules) && Acceptable(rules) { ParsedAcceptable(ovs, rules); }
    if FileAcceptable(ovs) {
      var rules := seq(|ovs|, i requires 0 <= i < |ovs| => ParseRule(ovs[i]).value);
      assert ParsedAs(ovs, rules);
      ParsedAcceptable(ovs, rules);
    }
  }

  ghost predicate VersionsDeclared(declared: seq<Contract>, ovs: seq<Override>) {
    forall ov, version :: ov in ovs && Names(ov, version) ==> exists d :: d in declared && d.version == version
  }

  lemma DeclaredExactly(declared: seq<Contract>, ovs: seq<Override>, rules: seq<Rule>)
    requires ParsedAs(ovs, rules)
    ensures KnownVersions(declared, rules) <==> VersionsDeclared(declared, ovs)
  {
    forall version ensures OfVersion(declared, version) != [] <==> exists d :: d in declared && d.version == version {
      OfVersionMembers(declared, version);
      if OfVersion(declared, version) != [] { assert OfVersion(declared, version)[0] in OfVersion(declared, version); }
    }
    if KnownVersions(declared, rules) {
      forall ov, version | ov in ovs && Names(ov, version) ensures exists d :: d in declared && d.version == version {
        var r := RuleOf(ovs, rules, ov);
        NamesExactly(ov, r, version);
        assert OfVersion(declared, r.version) != [];
      }
    } else {
      var r :| r in rules && OfVersion(declared, r.version) == [];
      var ov := EntryOf(ovs, rules, r);
      NamesExactly(ov, r, r.version);
    }
  }

  // The files a bundle loads from: acceptable entries, no binding declared twice, every named version
  // declared, and no walk stuck.
  lemma LoadableExactly(declared: seq<Contract>, ovs: seq<Override>)
    ensures Loadable(declared, ovs) <==>
              && FileAcceptable(ovs) && DistinctKeys(declared) && VersionsDeclared(declared, ovs)
              && forall rules :: ParsedAs(ovs, rules) ==> !ChainStuck(declared, rules)
  {
    AcceptableFileExactly(ovs);
    forall rules | ParsedAs(ovs, rules) ensures KnownVersions(declared, rules) <==> VersionsDeclared(declared, ovs) {
      DeclaredExactly(declared, ovs, rules);
    }
    if rules :| ParsedAs(ovs, rules) {
      forall other | ParsedAs(ovs, other) ensures other == rules { ParsedUnique(ovs, rules, other); }
    }
  }

  // --- what a lookup answers ---

  // The entry that governs a request: the one that selects it, else the fallback.
  ghost predicate Governs(ovs: seq<Override>, version: string, request: Selectors, ov: Override) {
    && ov in ovs && Names(ov, version)
    && if Selective(ov) then Matches(ov, request)
       else forall other :: other in ovs && Names(other, version) && Selective(other) ==> !Matches(other, request)
  }

  // c carries what the governing entry says, and nothing when there is none.
  ghost predicate ServedBy(ovs: seq<Override>, version: string, request: Selectors, c: Contract) {
    && (forall ov :: Governs(ovs, version, request, ov) ==> Carries(c, ov))
    && ((forall ov :: !Governs(ovs, version, request, ov)) ==> Declared(c))
  }

  lemma EntryOf(ovs: seq<Override>, rules: seq<Rule>, r: Rule) returns (ov: Override)
    requires ParsedAs(ovs, rules) && r in rules
    ensures ov in ovs && ParseRule(ov) == Some(r)
  {
    var i :| 0 <= i < |rules| && rules[i] == r;
    ov := ovs[i];
  }

  lemma RuleOf(ovs: seq<Override>, rules: seq<Rule>, ov: Override) returns (r: Rule)
    requires ParsedAs(ovs, rules) && ov in ovs
    ensures r in rules && ParseRule(ov) == Some(r)
  {
    var i :| 0 <= i < |ovs| && ovs[i] == ov;
    r := rules[i];
  }

  lemma EntryExactly(ov: Override, r: Rule, version: string, request: Selectors)
    requires ParseRule(ov) == Some(r)
    ensures Selects(r, version, request) <==> Names(ov, version) && Selective(ov) && Matches(ov, request)
    ensures FallsBack(r, version) <==> Names(ov, version) && !Selective(ov)
  {
    NamesExactly(ov, r, version);
    ReadsItsAxes(ov, r);
    MatchesExactly(ov, r, request);
  }

  // Some rule selects the request iff some entry does.
  lemma SelectedExactly(ovs: seq<Override>, rules: seq<Rule>, version: string, request: Selectors)
    requires ParsedAs(ovs, rules)
    ensures (exists r :: r in rules && Selects(r, version, request)) <==>
            exists ov :: ov in ovs && Names(ov, version) && Selective(ov) && Matches(ov, request)
  {
    if r :| r in rules && Selects(r, version, request) {
      var ov := EntryOf(ovs, rules, r);
      EntryExactly(ov, r, version, request);
    }
    if ov :| ov in ovs && Names(ov, version) && Selective(ov) && Matches(ov, request) {
      var r := RuleOf(ovs, rules, ov);
      EntryExactly(ov, r, version, request);
    }
  }

  lemma SameRule(rules: seq<Rule>, r: Rule, r': Rule, version: string, request: Selectors)
    requires Acceptable(rules) && r in rules && r' in rules
    requires (Selects(r, version, request) && Selects(r', version, request))
          || (FallsBack(r, version) && FallsBack(r', version))
    ensures r == r'
  {
    var i :| 0 <= i < |rules| && rules[i] == r;
    var j :| 0 <= j < |rules| && rules[j] == r';
    if Selects(r, version, request) {
      AtMostOneMatch(rules, i, j, request);
    } else {
      assert !Compatible(rules[i], rules[j]) && !Compatible(rules[j], rules[i]);
    }
  }

  lemma GoverningCarried(d: Contract, ovs: seq<Override>, rules: seq<Rule>, request: Selectors, c: Contract,
      ov: Override)
    requires ParsedAs(ovs, rules) && Acceptable(rules) && Declared(d) && IsChoice(d, rules, request, c)
    requires Governs(ovs, d.version, request, ov)
    ensures Carries(c, ov)
  {
    var r := RuleOf(ovs, rules, ov);
    EntryExactly(ov, r, d.version, request);
    SelectedExactly(ovs, rules, d.version, request);
    ParsedReads(ov, r);
    if Selective(ov) {
      assert exists x :: x in rules && Selects(x, d.version, request);
      var r' :| r' in rules && Selects(r', d.version, request) && c == ApplyRule(d, r');
      SameRule(rules, r, r', d.version, request);
    } else {
      assert FallsBack(r, d.version);
      var r' :| r' in rules && FallsBack(r', d.version) && c == ApplyRule(d, r');
      SameRule(rules, r, r', d.version, request);
    }
  }

  lemma UngovernedBare(d: Contract, ovs: seq<Override>, rules: seq<Rule>, request: Selectors, c: Contract)
    requires ParsedAs(ovs, rules) && IsChoice(d, rules, request, c)
    requires forall ov :: !Governs(ovs, d.version, request, ov)
    ensures c == d
  {
    SelectedExactly(ovs, rules, d.version, request);
    if ov :| ov in ovs && Names(ov, d.version) && Selective(ov) && Matches(ov, request) {
      assert Governs(ovs, d.version, request, ov);
    }
    if r :| r in rules && FallsBack(r, d.version) {
      var ov := EntryOf(ovs, rules, r);
      EntryExactly(ov, r, d.version, request);
      assert Governs(ovs, d.version, request, ov);
    }
  }

  lemma ChoiceReads(d: Contract, ovs: seq<Override>, rules: seq<Rule>, request: Selectors, c: Contract)
    requires ParsedAs(ovs, rules) && Acceptable(rules) && Declared(d) && IsChoice(d, rules, request, c)
    ensures ServedBy(ovs, d.version, request, c)
  {
    forall ov | Governs(ovs, d.version, request, ov) ensures Carries(c, ov) {
      GoverningCarried(d, ovs, rules, request, c, ov);
    }
    if forall ov :: !Governs(ovs, d.version, request, ov) { UngovernedBare(d, ovs, rules, request, c); }
  }

  lemma ChoiceKeepsKey(d: Contract, rules: seq<Rule>, request: Selectors, c: Contract)
    requires IsChoice(d, rules, request, c)
    ensures KeyOf(c) == KeyOf(d)
  {
  }

  ghost predicate AllDeclared(declared: seq<Contract>) {
    forall d :: d in declared ==> Declared(d)
  }

  // A lookup on a loaded bundle, read off the entries: it hits exactly the declared bindings, and the
  // contract it returns carries what the governing entry says.
  lemma AnswerReads(declared: seq<Contract>, ovs: seq<Override>, b: Bundle, key: Key, request: Selectors)
    requires LoadedFrom(declared, ovs, b) && AllDeclared(declared)
    ensures var r := Find(b, key.route, key.verb, key.version, request);
            && (r.Some? <==> exists d :: d in declared && KeyOf(d) == key)
            && (r.Some? ==> KeyOf(r.value) == key && ServedBy(ovs, key.version, request, r.value))
  {
    var rules :| ParsedAs(ovs, rules) && Loaded(declared, rules, b);
    FindIsAnswer(declared, rules, b, key, request);
    var r := Find(b, key.route, key.verb, key.version, request);
    if r.Some? {
      var d :| d in declared && KeyOf(d) == key && IsChoice(d, rules, request, r.value);
      ChoiceReads(d, ovs, rules, request, r.value);
      ChoiceKeepsKey(d, rules, request, r.value);
    }
  }

  // --- the chain a request runs through ---

  // c carries what its version's fallback entry says, and nothing when there is none.
  ghost predicate FallsBackTo(ovs: seq<Override>, c: Contract) {
    && (forall ov :: ov in ovs && Names(ov, c.version) && !Selective(ov) ==> Carries(c, ov))
    && ((forall ov :: ov in ovs && Names(ov, c.version) ==> Selective(ov)) ==> Declared(c))
  }

  ghost predicate ChainRead(ovs: seq<Override>, key: Key, request: Selectors, chain: seq<Contract>) {
    && chain != [] && KeyOf(chain[0]) == key && ServedBy(ovs, key.version, request, chain[0])
    && (forall i :: 1 <= i < |chain| ==> LinkRead(ovs, chain[i - 1], chain[i]))
    && Last(chain).transformTarget == ""
  }

  // The next link is the binding of the same route and method in the version the last one points to.
  ghost predicate LinkRead(ovs: seq<Override>, c: Contract, next: Contract) {
    c.transformTarget != "" && KeyOf(next) == Key(c.transformTarget, c.route, c.verb) && FallsBackTo(ovs, next)
  }

  lemma CanonicalReads(ovs: seq<Override>, rules: seq<Rule>, d: Contract)
    requires ParsedAs(ovs, rules) && Acceptable(rules) && Declared(d)
    ensures KeyOf(Resolved(d, rules)) == KeyOf(d) && FallsBackTo(ovs, Resolved(d, rules))
  {
    var mine, c := RulesFor(rules, d.version), Resolved(d, rules);
    DerivedByOneRule(d, rules, c);
    RulesForMembers(rules, d.version);
    RulesForOneFallback(rules, d.version);
    CanonicalIsFallback(d, mine);
    forall ov | ov in ovs && Names(ov, d.version) && !Selective(ov) ensures Carries(c, ov) {
      var r := RuleOf(ovs, rules, ov);
      EntryExactly(ov, r, d.version, Selectors("", "", ""));
      ParsedReads(ov, r);
      assert r in mine;
      var i :| 0 <= i < |mine| && mine[i] == r;
    }
    if forall ov :: ov in ovs && Names(ov, d.version) ==> Selective(ov) {
      forall i | 0 <= i < |mine| ensures !SelectorEmpty(mine[i].selectors) {
        assert mine[i] in mine;
        var ov := EntryOf(ovs, rules, mine[i]);
        EntryExactly(ov, mine[i], d.version, Selectors("", "", ""));
      }
    }
  }

  lemma {:induction false} FirstVariantIn(vs: seq<Variant>, request: Selectors)
    ensures FirstVariant(vs, request).Some? ==>
              exists v :: v in vs && v.contract == FirstVariant(vs, request).value
    decreases |vs|
  {
    if vs != [] {
      assert vs[0] in vs && forall v :: v in vs[1..] ==> v in vs;
      FirstVariantIn(vs[1..], request);
    }
  }

  lemma AnswerResolves(declared: seq<Contract>, rules: seq<Rule>, b: Bundle, key: Key, request: Selectors)
    requires Loaded(declared, rules, b)
    ensures var r := Find(b, key.route, key.verb, key.version, request);
            r.Some? ==> Resolves(declared, rules, r.value)
  {
    var r := Find(b, key.route, key.verb, key.version, request);
    if d :| d in declared && KeyOf(d) == key {
      FindHits(declared, rules, b, key, request, d);
      FirstVariantIn(Specialised(d, rules), request);
      assert Derived(d, rules, r.value);
    } else {
      FindMisses(declared, rules, b, key, request);
    }
  }

  lemma NextBinds(b: Bundle, chain: seq<Contract>, i: nat)
    requires Indexed(b.byVersion, b.contracts)
    requires chain != [] && IsChain(b.byVersion, chain[0], chain) && 1 <= i < |chain|
    ensures var c := chain[i - 1];
            && c.transformTarget != "" && KeyOf(chain[i]) == Key(c.transformTarget, c.route, c.verb)
            && chain[i] in b.contracts
  {
    IndexedIsFiled(b.byVersion, b.contracts);
    WalkStep(b.byVersion, chain[0], chain, i - 1);
    WalkServesOneBinding(b.byVersion, chain[0], chain, i - 1);
    OfVersionMembers(b.contracts, chain[i - 1].transformTarget);
  }

  lemma LinkReads(declared: seq<Contract>, ovs: seq<Override>, rules: seq<Rule>, b: Bundle, chain: seq<Contract>,
      i: nat)
    requires ParsedAs(ovs, rules) && Loaded(declared, rules, b) && AllDeclared(declared)
    requires chain != [] && IsChain(b.byVersion, chain[0], chain) && 1 <= i < |chain|
    ensures LinkRead(ovs, chain[i - 1], chain[i])
  {
    NextBinds(b, chain, i);
    var k :| 0 <= k < |declared| && b.contracts[k] == chain[i];
    assert declared[k] in declared;
    CanonicalReads(ovs, rules, declared[k]);
  }

  // The chain of a looked-up contract, read off the entries: it starts with what governs the request
  // and follows the transform targets through the fallbacks to a contract without one.
  lemma ChainReads(declared: seq<Contract>, ovs: seq<Override>, b: Bundle, key: Key, request: Selectors)
    requires LoadedFrom(declared, ovs, b) && AllDeclared(declared)
    requires Find(b, key.route, key.verb, key.version, request).Some?
    ensures var c := Find(b, key.route, key.verb, key.version, request).value;
            c in b.chains && ChainRead(ovs, key, request, b.chains[c])
  {
    var rules :| ParsedAs(ovs, rules) && Loaded(declared, rules, b);
    AnswerReads(declared, ovs, b, key, request);
    AnswerResolves(declared, rules, b, key, request);
    var c := Find(b, key.route, key.verb, key.version, request).value;
    var chain := b.chains[c];
    forall i | 1 <= i < |chain| ensures LinkRead(ovs, chain[i - 1], chain[i]) {
      LinkReads(declared, ovs, rules, b, chain, i);
    }
    EndsThere(b.byVersion, c, chain);
  }

  lemma EndsThere(byVersion: Index, head: Contract, chain: seq<Contract>)
    requires IsChain(byVersion, head, chain)
    ensures Last(chain).transformTarget == ""
  {
  }

  // --- one request, from the entries to the reply ---

  type Relation = (Contract, Json, Json) -> bool
  type Refusal = (Contract, Json, Failure) -> bool

  // Bodies along the chain, each related to the next by the link between them.
  ghost predicate Along(step: Relation, chain: seq<Contract>, bodies: seq<Json>) {
    |bodies| == |chain| + 1 && forall i :: 0 <= i < |chain| ==> step(chain[i], bodies[i], bodies[i + 1])
  }

  ghost predicate Relates(step: Relation, chain: seq<Contract>, first: Json, last: Json) {
    exists bodies :: Along(step, chain, bodies) && bodies[0] == first && bodies[|chain|] == last
  }

  // A link's request list takes a body to the next one, its response list brings it back.
  ghost function Asks(lib: Numerics): Relation {
    (c: Contract, a: Json, b: Json) => AllWellFormed(c.requestOps) && Meaning.Yields(lib, c.requestOps, a, b)
  }

  ghost function Answers(lib: Numerics): Relation {
    (c: Contract, a: Json, b: Json) => AllWellFormed(c.responseOps) && Meaning.Yields(lib, c.responseOps, b, a)
  }

  ghost function CannotAsk(lib: Numerics): Refusal {
    (c: Contract, body: Json, e: Failure) => AllWellFormed(c.requestOps) && Meaning.FailsAs(lib, c.requestOps, body, e)
  }

  ghost function CannotAnswer(lib: Numerics): Refusal {
    (c: Contract, body: Json, e: Failure) => AllWellFormed(c.responseOps)
        && Meaning.FailsAs(lib, c.responseOps, body, e)
  }

  // Some link refuses the body the links before it send on.
  ghost predicate StopsGoing(step: Relation, refuses: Refusal, chain: seq<Contract>, body: Json, e: Failure) {
    exists i, outer :: 0 <= i < |chain| && Relates(step, chain[..i], body, outer) && refuses(chain[i], outer, e)
  }

  // Some link refuses the body the links after it bring back.
  ghost predicate StopsComing(step: Relation, refuses: Refusal, chain: seq<Contract>, received: Json, e: Failure) {
    exists i, inner :: 0 <= i < |chain| && Relates(step, chain[i + 1..], inner, received) && refuses(chain[i], inner, e)
  }

  // What the client gets: 422 when its body cannot be sent, 502 when the answer cannot be brought
  // back, else the answer.
  ghost predicate RepliesWith(lib: Numerics, chain: seq<Contract>, body: Json, upstream: Json -> Json,
      reply: MirrorLaws.Reply)
  {
    match reply
    case Rejected(status, e) =>
      || (status == 422 && StopsGoing(Asks(lib), CannotAsk(lib), chain, body, e))
      || (status == 502 && exists sent :: Relates(Asks(lib), chain, body, sent)
                                       && StopsComing(Answers(lib), CannotAnswer(lib), chain, upstream(sent), e))
    case Answered(answer) =>
      exists sent :: Relates(Asks(lib), chain, body, sent) && Relates(Answers(lib), chain, answer, upstream(sent))
  }

  lemma RelatesNone(step: Relation, body: Json)
    ensures Relates(step, [], body, body)
  {
    assert Along(step, [], [body]);
  }

  lemma RelatesMore(step: Relation, chain: seq<Contract>, first: Json, next: Json, last: Json)
    requires chain != [] && step(chain[0], first, next) && Relates(step, chain[1..], next, last)
    ensures Relates(step, chain, first, last)
  {
    var bodies :| Along(step, chain[1..], bodies) && bodies[0] == next && bodies[|chain[1..]|] == last;
    var all := [first] + bodies;
    forall i | 0 <= i < |chain| ensures step(chain[i], all[i], all[i + 1]) {
      if i > 0 { assert step(chain[1..][i - 1], bodies[i - 1], bodies[i - 1 + 1]); }
    }
    assert Along(step, chain, all);
  }

  lemma GoingMore(step: Relation, refuses: Refusal, chain: seq<Contract>, body: Json, next: Json, e: Failure)
    requires chain != [] && step(chain[0], body, next) && StopsGoing(step, refuses, chain[1..], next, e)
    ensures StopsGoing(step, refuses, chain, body, e)
  {
    var rest := chain[1..];
    var i, outer :| 0 <= i < |rest| && Relates(step, rest[..i], next, outer) && refuses(rest[i], outer, e);
    assert chain[..i + 1][1..] == rest[..i] && chain[i + 1] == rest[i];
    RelatesMore(step, chain[..i + 1], body, next, outer);
  }

  lemma GoingAtOnce(step: Relation, refuses: Refusal, chain: seq<Contract>, body: Json, e: Failure)
    requires chain != [] && refuses(chain[0], body, e)
    ensures StopsGoing(step, refuses, chain, body, e)
  {
    RelatesNone(step, body);
    assert chain[..0] == [];
  }

  lemma ComingMore(step: Relation, refuses: Refusal, chain: seq<Contract>, received: Json, e: Failure)
    requires chain != [] && StopsComing(step, refuses, chain[1..], received, e)
    ensures StopsComing(step, refuses, chain, received, e)
  {
    var rest := chain[1..];
    var i, inner :| 0 <= i < |rest| && Relates(step, rest[i + 1..], inner, received) && refuses(rest[i], inner, e);
    assert rest[i + 1..] == chain[i + 1 + 1..] && rest[i] == chain[i + 1];
  }

  ghost predicate OpsWellFormed(chain: seq<Contract>) {
    forall i :: 0 <= i < |chain| ==> AllWellFormed(chain[i].requestOps) && AllWellFormed(chain[i].responseOps)
  }

  function LinksOf(chain: seq<Contract>): seq<MirrorLaws.Link> {
    seq(|chain|, i requires 0 <= i < |chain| => MirrorLaws.Link(chain[i].requestOps, chain[i].responseOps))
  }

  lemma LinksWellFormed(chain: seq<Contract>)
    requires OpsWellFormed(chain)
    ensures MirrorLaws.ChainWellFormed(LinksOf(chain))
    ensures chain != [] ==> LinksOf(chain)[1..] == LinksOf(chain[1..]) && OpsWellFormed(chain[1..])
  {
  }

  lemma {:induction false} ForwardReads(lib: Numerics, chain: seq<Contract>, body: Json)
    requires OpsWellFormed(chain) && MirrorLaws.ChainWellFormed(LinksOf(chain))
    ensures match MirrorLaws.Forward(lib, LinksOf(chain), body)
            case Ok(sent) => Relates(Asks(lib), chain, body, sent)
            case Fail(e) => StopsGoing(Asks(lib), CannotAsk(lib), chain, body, e)
    decreases |chain|
  {
    if chain == [] {
      RelatesNone(Asks(lib), body);
    } else {
      LinksWellFormed(chain);
      LinksWellFormed(chain[1..]);
      RequestReads(lib, chain[0], body);
      var r := Apply(lib, chain[0].requestOps, body);
      if r.Fail? {
        GoingAtOnce(Asks(lib), CannotAsk(lib), chain, body, r.reason);
      } else {
        ForwardReads(lib, chain[1..], r.value);
        match MirrorLaws.Forward(lib, LinksOf(chain[1..]), r.value)
        case Ok(sent) => RelatesMore(Asks(lib), chain, body, r.value, sent);
        case Fail(e) => GoingMore(Asks(lib), CannotAsk(lib), chain, body, r.value, e);
      }
    }
  }

  lemma RequestReads(lib: Numerics, c: Contract, body: Json)
    requires AllWellFormed(c.requestOps)
    ensures match Apply(lib, c.requestOps, body)
            case Ok(next) => Asks(lib)(c, body, next)
            case Fail(e) => CannotAsk(lib)(c, body, e)
  {
    Meaning.ApplyDenotes(lib, c.requestOps, body);
  }

  lemma ResponseReads(lib: Numerics, c: Contract, inner: Json)
    requires AllWellFormed(c.responseOps)
    ensures match Apply(lib, c.responseOps, inner)
            case Ok(answer) => Answers(lib)(c, answer, inner)
            case Fail(e) => CannotAnswer(lib)(c, inner, e)
  {
    Meaning.ApplyDenotes(lib, c.responseOps, inner);
  }

  lemma {:induction false} BackwardReads(lib: Numerics, chain: seq<Contract>, received: Json)
    requires OpsWellFormed(chain) && MirrorLaws.ChainWellFormed(LinksOf(chain))
    ensures match MirrorLaws.Backward(lib, LinksOf(chain), received)
            case Ok(answer) => Relates(Answers(lib), chain, answer, received)
            case Fail(e) => StopsComing(Answers(lib), CannotAnswer(lib), chain, received, e)
    decreases |chain|
  {
    if chain == [] {
      RelatesNone(Answers(lib), received);
    } else {
      LinksWellFormed(chain);
      LinksWellFormed(chain[1..]);
      BackwardReads(lib, chain[1..], received);
      var inner := MirrorLaws.Backward(lib, LinksOf(chain[1..]), received);
      if inner.Fail? {
        ComingMore(Answers(lib), CannotAnswer(lib), chain, received, inner.reason);
      } else {
        ResponseReads(lib, chain[0], inner.value);
        var r := Apply(lib, chain[0].responseOps, inner.value);
        if r.Ok? { RelatesMore(Answers(lib), chain, r.value, inner.value, received); }
      }
    }
  }

  // The proxy's two folds over a chain of contracts give the reply those contracts stand for.
  lemma ProxiedReads(lib: Numerics, chain: seq<Contract>, body: Json, upstream: Json -> Json)
    requires OpsWellFormed(chain) && MirrorLaws.ChainWellFormed(LinksOf(chain))
    ensures RepliesWith(lib, chain, body, upstream, MirrorLaws.Proxied(lib, LinksOf(chain), body, upstream))
  {
    ForwardReads(lib, chain, body);
    var sent := MirrorLaws.Forward(lib, LinksOf(chain), body);
    if sent.Ok? { BackwardReads(lib, chain, upstream(sent.value)); }
  }

  // What the op parser guarantees of the entries.
  ghost predicate StanzasWellFormed(ovs: seq<Override>) {
    forall ov :: ov in ovs && ov.shim.Some? ==>
      AllWellFormed(ov.shim.value.requestOps) && AllWellFormed(ov.shim.value.responseOps)
  }

  lemma ReadChainWellFormed(ovs: seq<Override>, key: Key, request: Selectors, chain: seq<Contract>)
    requires StanzasWellFormed(ovs) && ChainRead(ovs, key, request, chain)
    ensures OpsWellFormed(chain)
  {
    forall i | 0 <= i < |chain| ensures AllWellFormed(chain[i].requestOps) && AllWellFormed(chain[i].responseOps) {
      if i == 0 {
        if ov :| Governs(ovs, key.version, request, ov) { assert Carries(chain[0], ov); }
      } else {
        assert LinkRead(ovs, chain[i - 1], chain[i]);
        if ov :| ov in ovs && Names(ov, chain[i].version) && !Selective(ov) { assert Carries(chain[i], ov); }
      }
    }
  }

  // The reply of the chain the entries give the request, with the backend its last contract names.
  ghost predicate Served(lib: Numerics, ovs: seq<Override>, key: Key, request: Selectors, body: Json,
      backend: (string, Json) -> Json, reply: MirrorLaws.Reply)
  {
    exists chain :: ChainRead(ovs, key, request, chain) && RepliesThrough(lib, chain, body, backend, reply)
  }

  ghost predicate RepliesThrough(lib: Numerics, chain: seq<Contract>, body: Json, backend: (string, Json) -> Json,
      reply: MirrorLaws.Reply)
  {
    chain != [] && RepliesWith(lib, chain, body, (sent: Json) => backend(Last(chain).target, sent), reply)
  }

  // One request through the server, as far as bodies go: the route gate, the lookup, and the folds
  // over the stored chain around the call to the backend the chain ends at.
  method Serve(lib: Numerics, b: Bundle, key: Key, request: Selectors, body: Json, backend: (string, Json) -> Json,
      ghost declared: seq<Contract>, ghost ovs: seq<Override>) returns (r: Option<MirrorLaws.Reply>)
    requires LoadedFrom(declared, ovs, b) && AllDeclared(declared) && StanzasWellFormed(ovs)
    ensures r.Some? <==> exists d :: d in declared && KeyOf(d) == key
    ensures r.Some? ==> Served(lib, ovs, key, request, body, backend, r.value)
  {
    AnswerReads(declared, ovs, b, key, request);
    LoadedIndexed(declared, ovs, b);
    RouteGateExactly(b, key.route, key.verb, request);
    var gate := LookupRoute(b, key.route, key.verb);
    if gate.None? {
      return None;
    }
    var found := Lookup(b, key.route, key.verb, key.version, request);
    if found.None? {
      return None;
    }
    ChainReads(declared, ovs, b, key, request);
    var chain := b.chains[found.value];
    ReadChainWellFormed(ovs, key, request, chain);
    LinksWellFormed(chain);
    var upstream := (sent: Json) => backend(Last(chain).target, sent);
    var reply := MirrorLaws.Proxy(lib, LinksOf(chain), body, upstream);
    ProxiedReads(lib, chain, body, upstream);
    assert RepliesThrough(lib, chain, body, backend, reply);
    return Some(reply);
  }

  lemma LoadedIndexed(declared: seq<Contract>, ovs: seq<Override>, b: Bundle)
    requires LoadedFrom(declared, ovs, b)
    ensures Indexed(b.byVersion, b.contracts)
  {
  }
}
