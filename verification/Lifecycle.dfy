/**
 The life of a bundle directory (internal/bundlegen/bundlegen.go): Add, Retire and Remove on the
 version layers, and the transform overrides Retire writes.
 */
module Lifecycle {
  import opened Order
  import Chains

  // What one command asks for; `usable` is safeLayerName's verdict on the version.
  datatype Command =
    | Add(version: string, usable: bool, force: bool)
    | Retire(version: string)
    | Remove(version: string)

  // The layer directories as os.ReadDir lists them, and resolution.yaml's version-to-target overrides.
  datatype State = State(layers: seq<string>, overrides: map<string, string>)

  function WithLayer(layers: seq<string>, v: string): seq<string> {
    if layers == [] then [v]
    else if Less(v, layers[0]) then [v] + layers
    else [layers[0]] + WithLayer(layers[1..], v)
  }

  function IndexOf(layers: seq<string>, v: string): (i: nat)
    requires v in layers
    ensures i < |layers| && layers[i] == v
  {
    if layers[0] == v then 0 else 1 + IndexOf(layers[1..], v)
  }

  function Next(s: State, c: Command): (r: (State, bool)) {
    match c
    case Add(v, usable, force) =>
      if v == "" || !usable || (v in s.layers && !force) then (s, false)
      else if v in s.layers then (s, true)
      else (s.(layers := WithLayer(s.layers, v)), true)
    case Retire(v) =>
      if v !in s.layers || IndexOf(s.layers, v) == |s.layers| - 1 || v in s.overrides then (s, false)
      else (s.(overrides := s.overrides[v := s.layers[IndexOf(s.layers, v) + 1]]), true)
    case Remove(v) =>
      if |s.layers| < 2 || v != s.layers[0] then (s, false)
      else (s.(layers := s.layers[1..]), true)
  }

  ghost predicate Newest(layers: seq<string>, v: string) {
    forall u :: u in layers ==> !Less(v, u)
  }

  // t is the next newer layer after v.
  ghost predicate NextNewer(layers: seq<string>, v: string, t: string) {
    t in layers && Less(v, t) && forall u :: u in layers && Less(v, u) ==> u == t || Less(t, u)
  }

  // What a command does, told by the set of layers: Add puts one in, Remove takes the oldest of at least
  // two away, Retire redirects one that is not the newest, and is not redirected yet, to the next newer.
  // A command that fails changes nothing.
  ghost predicate Does(s: State, c: Command, s': State, ok: bool) {
    && (!ok ==> s' == s)
    && (ok ==> StrictlySorted(s'.layers))
    && match c
       case Add(v, usable, force) =>
         && (ok <==> v != "" && usable && (v in s.layers ==> force))
         && (ok ==> s'.overrides == s.overrides && forall x :: x in s'.layers <==> x in s.layers || x == v)
       case Retire(v) =>
         && (ok <==> v in s.layers && !Newest(s.layers, v) && v !in s.overrides)
         && (ok ==> s'.layers == s.layers && Redirected(s, v, s'.overrides))
       case Remove(v) =>
         && (ok <==> |s.layers| >= 2 && v in s.layers && forall u :: u in s.layers ==> u == v || Less(v, u))
         && (ok ==> s'.overrides == s.overrides && forall x :: x in s'.layers <==> x in s.layers && x != v)
  }

  ghost predicate Redirected(s: State, v: string, overrides: map<string, string>) {
    && overrides.Keys == s.overrides.Keys + {v} && NextNewer(s.layers, v, overrides[v])
    && forall x :: x in s.overrides && x != v ==> overrides[x] == s.overrides[x]
  }

  lemma NextDoes(s: State, c: Command)
    requires StrictlySorted(s.layers)
    ensures Does(s, c, Next(s, c).0, Next(s, c).1)
  {
    match c
    case Add(v, _, _) => if v !in s.layers { WithLayerSorted(s.layers, v); }
    case Retire(v) => if v in s.layers { RetireDoes(s, v); }
    case Remove(v) => RemoveDoes(s, v);
  }

  lemma RetireDoes(s: State, v: string)
    requires StrictlySorted(s.layers) && v in s.layers
    ensures Does(s, Retire(v), Next(s, Retire(v)).0, Next(s, Retire(v)).1)
  {
    var i := IndexOf(s.layers, v);
    forall u | u in s.layers ensures Less(v, u) <==> IndexOf(s.layers, u) > i {
      var j := IndexOf(s.layers, u);
      if j < i { LessAsymmetric(u, v); }
      if j == i { LessIrreflexive(v); }
    }
    if i + 1 < |s.layers| {
      assert s.layers[i + 1] in s.layers && Less(v, s.layers[i + 1]);
      forall u | u in s.layers && Less(v, u) ensures u == s.layers[i + 1] || Less(s.layers[i + 1], u) {
        var j := IndexOf(s.layers, u);
        assert j == i + 1 || Less(s.layers[i + 1], s.layers[j]);
      }
    }
  }

  lemma RemoveDoes(s: State, v: string)
    requires StrictlySorted(s.layers)
    ensures Does(s, Remove(v), Next(s, Remove(v)).0, Next(s, Remove(v)).1)
  {
    SortedDistinct(s.layers);
    if s.layers != [] {
      var first, rest := s.layers[0], s.layers[1..];
      assert s.layers == [first] + rest && first in s.layers;
      forall u | u in rest ensures Less(first, u) && u != first {
        var k :| 0 <= k < |rest| && rest[k] == u;
        assert s.layers[k + 1] == u;
      }
      forall x ensures x in rest <==> x in s.layers && x != first {}
      if v in s.layers && v != first { LessAsymmetric(first, v); }
    }
  }

  lemma {:induction false} WithLayerSorted(layers: seq<string>, v: string)
    requires StrictlySorted(layers) && v !in layers
    ensures StrictlySorted(WithLayer(layers, v)) && forall x :: x in WithLayer(layers, v) <==> x in layers || x == v
    decreases |layers|
  {
    if layers != [] {
      if Less(v, layers[0]) {
        forall i | 0 < i < |layers| ensures Less(v, layers[i]) { LessTransitive(v, layers[0], layers[i]); }
      } else {
        LessTotal(v, layers[0]);
        var rest := WithLayer(layers[1..], v);
        WithLayerSorted(layers[1..], v);
        forall i | 0 <= i < |rest| ensures Less(layers[0], rest[i]) {
          assert rest[i] in rest;
          if rest[i] != v {
            var k :| 0 <= k < |layers[1..]| && layers[1..][k] == rest[i];
            assert layers[k + 1] == rest[i];
          }
        }
        assert layers == [layers[0]] + layers[1..];
      }
    }
  }

  // The listing with a new directory in its sorted place.
  method InsertInto(layers: seq<string>, v: string) returns (r: seq<string>)
    ensures r == WithLayer(layers, v)
  {
    var k := 0;
    while k < |layers| && !Less(v, layers[k])
      invariant k <= |layers| && forall i :: 0 <= i < k ==> !Less(v, layers[i])
    {
      k := k + 1;
    }
    WithLayerAt(layers, v, k);
    r := layers[..k] + [v] + layers[k..];
  }

  lemma {:induction false} WithLayerAt(layers: seq<string>, v: string, k: nat)
    requires k <= |layers| && (forall i :: 0 <= i < k ==> !Less(v, layers[i]))
    requires k < |layers| ==> Less(v, layers[k])
    ensures WithLayer(layers, v) == layers[..k] + [v] + layers[k..]
    decreases k
  {
    if k > 0 {
      WithLayerAt(layers[1..], v, k - 1);
      assert layers[..k] == [layers[0]] + layers[1..][..k - 1] && layers[1..][k - 1..] == layers[k..];
    }
  }

  // The directory and file, changed in place.
  class BundleDir {
    var layers: seq<string>
    var overrides: map<string, string>

    ghost predicate Valid()
      reads this
    {
      StrictlySorted(layers)
    }

    ghost function Value(): State
      reads this
    {
      State(layers, overrides)
    }

    method AddLayer(version: string, usable: bool, force: bool) returns (ok: bool)
      requires Valid()
      modifies this
      ensures Valid() && (Value(), ok) == Next(old(Value()), Add(version, usable, force))
      ensures Does(old(Value()), Add(version, usable, force), Value(), ok)
    {
      NextDoes(Value(), Add(version, usable, force));
      if version == "" || !usable {
        return false;
      }
      if version in layers {
        return force;
      }
      WithLayerSorted(layers, version);
      var listing := InsertInto(layers, version);
      layers := listing;
      return true;
    }

    method RetireLayer(version: string) returns (ok: bool)
      requires Valid()
      modifies this
      ensures Valid() && (Value(), ok) == Next(old(Value()), Retire(version))
      ensures Does(old(Value()), Retire(version), Value(), ok)
    {
      NextDoes(Value(), Retire(version));
      var i := 0;
      while i < |layers| && layers[i] != version
        invariant i <= |layers| && layers == old(layers) && overrides == old(overrides)
        invariant version !in layers[..i]
      {
        i := i + 1;
      }
      SortedDistinct(layers);
      if i == |layers| {
        assert layers[..i] == layers;
        return false;
      }
      assert IndexOf(layers, version) == i;
      if i == |layers| - 1 || version in overrides {
        return false;
      }
      overrides := overrides[version := layers[i + 1]];
      return true;
    }

    method RemoveLayer(version: string) returns (ok: bool)
      requires Valid()
      modifies this
      ensures Valid() && (Value(), ok) == Next(old(Value()), Remove(version))
      ensures Does(old(Value()), Remove(version), Value(), ok)
    {
      NextDoes(Value(), Remove(version));
      if |layers| < 2 || version != layers[0] {
        return false;
      }
      layers := layers[1..];
      return true;
    }
  }

  // --- runs ---

  // `removed` is the history of removed versions.
  datatype Run = Run(state: State, removed: set<string>)

  function Step(r: Run, c: Command): Run {
    var (next, ok) := Next(r.state, c);
    Run(next, if c.Remove? && ok then r.removed + {c.version} else r.removed)
  }

  function After(r: Run, cs: seq<Command>): Run
    decreases |cs|
  {
    if cs == [] then r else After(Step(r, cs[0]), cs[1..])
  }

  // No command of the run adds a version that was removed before.
  ghost predicate NeverReadded(r: Run, cs: seq<Command>)
    decreases |cs|
  {
    cs == [] || ((cs[0].Add? ==> cs[0].version !in r.removed) && NeverReadded(Step(r, cs[0]), cs[1..]))
  }

  // Every override points to a strictly newer version.
  ghost predicate Forward(s: State) {
    forall v :: v in s.overrides ==> Less(v, s.overrides[v])
  }

  ghost predicate Sound(r: Run) {
    && StrictlySorted(r.state.layers) && Forward(r.state)
    && (forall v :: v in r.state.overrides ==> v in r.state.layers || v in r.removed)
  }

  // An override whose source layer is present has its target layer present.
  ghost predicate TargetsPresent(s: State) {
    forall v :: v in s.overrides && v in s.layers ==> s.overrides[v] in s.layers
  }

  ghost predicate RemovedGone(r: Run) {
    forall v :: v in r.removed ==> v !in r.state.layers
  }

  lemma StepSound(r: Run, c: Command)
    requires Sound(r)
    ensures Sound(Step(r, c))
    ensures r.state.layers != [] ==> Step(r, c).state.layers != []
  {
    match c
    case Add(v, _, _) =>
      if v !in r.state.layers { WithLayerSorted(r.state.layers, v); }
    case Retire(v) =>
    case Remove(v) =>
      var next := Step(r, c);
      forall x | x in next.state.overrides ensures x in next.state.layers || x in next.removed {
        if x in r.state.layers && next != r && x != v {
          assert r.state.layers == [v] + r.state.layers[1..];
        }
      }
  }

  // The newest layer survives every Remove and nothing else removes layers.
  lemma NewestKept(s: State, c: Command)
    requires StrictlySorted(s.layers) && s.layers != []
    ensures s.layers[|s.layers| - 1] in Next(s, c).0.layers
  {
    match c
    case Add(v, _, _) => if v !in s.layers { WithLayerSorted(s.layers, v); }
    case Retire(_) =>
    case Remove(_) =>
  }

  // The one step that breaks TargetsPresent: Add brings back a layer whose override was left behind,
  // and the target is gone.
  predicate Revives(s: State, c: Command) {
    && c.Add? && c.version != "" && c.usable && c.version !in s.layers
    && c.version in s.overrides && s.overrides[c.version] !in s.layers
  }

  lemma StepKeepsTargetsExactly(s: State, c: Command)
    requires StrictlySorted(s.layers) && Forward(s) && TargetsPresent(s)
    ensures TargetsPresent(Next(s, c).0) <==> !Revives(s, c)
  {
    match c
    case Add(v, _, _) =>
      if v !in s.layers { WithLayerSorted(s.layers, v); }
      if v in s.overrides { LessIrreflexive(v); }
    case Retire(v) =>
    case Remove(v) =>
      if Next(s, c).0 != s { RemoveKeepsTargets(s, v); }
  }

  lemma RemoveKeepsTargets(s: State, v: string)
    requires StrictlySorted(s.layers) && Forward(s) && TargetsPresent(s)
    requires s.layers != [] && v == s.layers[0]
    ensures TargetsPresent(s.(layers := s.layers[1..]))
  {
    assert s.layers == [v] + s.layers[1..];
    forall x | x in s.overrides && x in s.layers[1..] ensures s.overrides[x] in s.layers[1..] {
      if s.overrides[x] == v {
        var k :| 0 <= k < |s.layers[1..]| && s.layers[1..][k] == x;
        assert Less(v, s.layers[k + 1]);
        LessAsymmetric(x, v);
      }
    }
  }

  // Over every run: a non-empty bundle stays non-empty, and overrides only ever point forward.
  lemma {:induction false} RunSound(r: Run, cs: seq<Command>)
    requires Sound(r)
    ensures Sound(After(r, cs))
    ensures r.state.layers != [] ==> After(r, cs).state.layers != []
    decreases |cs|
  {
    if cs != [] {
      StepSound(r, cs[0]);
      RunSound(Step(r, cs[0]), cs[1..]);
    }
  }

  // Targets are present in every state of the run.
  ghost predicate TargetsAlways(r: Run, cs: seq<Command>)
    decreases |cs|
  {
    TargetsPresent(r.state) && (cs == [] || TargetsAlways(Step(r, cs[0]), cs[1..]))
  }

  ghost predicate NeverRevives(r: Run, cs: seq<Command>)
    decreases |cs|
  {
    cs == [] || (!Revives(r.state, cs[0]) && NeverRevives(Step(r, cs[0]), cs[1..]))
  }

  // Over every run: targets of present sources stay present iff no command revives an override.
  lemma {:induction false} RunKeepsTargetsExactly(r: Run, cs: seq<Command>)
    requires Sound(r) && TargetsPresent(r.state)
    ensures TargetsAlways(r, cs) <==> NeverRevives(r, cs)
    decreases |cs|
  {
    if cs != [] {
      StepSound(r, cs[0]);
      StepKeepsTargetsExactly(r.state, cs[0]);
      if TargetsPresent(Step(r, cs[0]).state) { RunKeepsTargetsExactly(Step(r, cs[0]), cs[1..]); }
    }
  }

  lemma {:induction false} AlwaysAtEnd(r: Run, cs: seq<Command>)
    requires TargetsAlways(r, cs)
    ensures TargetsPresent(After(r, cs).state)
    decreases |cs|
  {
    if cs != [] { AlwaysAtEnd(Step(r, cs[0]), cs[1..]); }
  }

  lemma StepKeepsGone(r: Run, c: Command)
    requires Sound(r) && RemovedGone(r) && (c.Add? ==> c.version !in r.removed)
    ensures RemovedGone(Step(r, c)) && !Revives(r.state, c)
  {
    match c
    case Add(v, _, _) =>
      if v !in r.state.layers { WithLayerSorted(r.state.layers, v); }
    case Retire(v) =>
    case Remove(v) =>
      SortedDistinct(r.state.layers);
      if Step(r, c) != r {
        assert r.state.layers == [v] + r.state.layers[1..];
        forall k | 0 <= k < |r.state.layers[1..]|
            ensures r.state.layers[1..][k] != v { assert r.state.layers[k + 1] != r.state.layers[0]; }
      }
  }

  // A run that adds no removed version again revives nothing.
  lemma {:induction false} RunKeepsTargets(r: Run, cs: seq<Command>)
    requires Sound(r) && TargetsPresent(r.state) && RemovedGone(r) && NeverReadded(r, cs)
    ensures NeverRevives(r, cs) && TargetsPresent(After(r, cs).state) && RemovedGone(After(r, cs))
    decreases |cs|
  {
    if cs != [] {
      StepSound(r, cs[0]);
      StepKeepsGone(r, cs[0]);
      StepKeepsTargetsExactly(r.state, cs[0]);
      RunKeepsTargets(Step(r, cs[0]), cs[1..]);
    }
  }

  // --- where the overrides lead ---

  // A walk along the targets that stays within the layers and ends.
  ghost predicate WalkEnds(s: State, w: seq<string>) {
    && w != [] && (forall i :: 0 <= i < |w| - 1 ==> w[i] in s.overrides && s.overrides[w[i]] == w[i + 1])
    && w[|w| - 1] !in s.overrides
    && (forall i :: 0 <= i < |w| ==> w[i] in s.layers)
    && (forall i, j :: 0 <= i < j < |w| ==> w[i] != w[j])
  }

  function Newer(layers: seq<string>, v: string): nat
    requires v in layers
  {
    |layers| - IndexOf(layers, v)
  }

  lemma {:induction false} SortedIndices(layers: seq<string>, v: string, t: string)
    requires StrictlySorted(layers) && v in layers && t in layers && Less(v, t)
    ensures IndexOf(layers, v) < IndexOf(layers, t)
  {
    var i, j := IndexOf(layers, v), IndexOf(layers, t);
    if j < i { LessAsymmetric(v, t); } else if i == j { LessIrreflexive(v); }
  }

  ghost predicate FromUp(w: seq<string>, v: string) {
    w != [] && w[0] == v && forall i :: 0 < i < |w| ==> Less(v, w[i])
  }

  lemma WalkExtends(s: State, v: string, rest: seq<string>)
    requires v in s.layers && v in s.overrides && Less(v, s.overrides[v])
    requires WalkEnds(s, rest) && FromUp(rest, s.overrides[v])
    ensures WalkEnds(s, [v] + rest) && FromUp([v] + rest, v)
  {
    var w := [v] + rest;
    forall i | 0 <= i < |rest| ensures Less(v, rest[i]) {
      if i > 0 { LessTransitive(v, rest[0], rest[i]); }
    }
    LessIrreflexive(v);
    forall i, j | 0 <= i < j < |w| ensures w[i] != w[j] {
      assert w[j] == rest[j - 1];
      if i > 0 { assert w[i] == rest[i - 1]; }
    }
    forall i | 0 <= i < |w| - 1 ensures w[i] in s.overrides && s.overrides[w[i]] == w[i + 1] {
      if i > 0 { assert w[i] == rest[i - 1] && w[i + 1] == rest[i]; }
    }
  }

  // Forward overrides among the layers always lead to an end: no chain cycles.
  lemma {:induction false} ForwardWalkEnds(s: State, v: string) returns (w: seq<string>)
    requires StrictlySorted(s.layers) && Forward(s) && TargetsPresent(s) && v in s.layers
    ensures WalkEnds(s, w) && FromUp(w, v)
    decreases Newer(s.layers, v)
  {
    if v !in s.overrides {
      w := [v];
    } else {
      SortedIndices(s.layers, v, s.overrides[v]);
      var rest := ForwardWalkEnds(s, s.overrides[v]);
      WalkExtends(s, v, rest);
      w := [v] + rest;
    }
  }

  // The same seen by the loader: on contracts whose transform targets are newer versions, no walk
  // comes back to a version, so resolveChains never reports a cycle.
  lemma ForwardNeverCycles(byVersion: Chains.Index, head: Chains.Contract, w: seq<Chains.Contract>)
    requires Chains.Filed(byVersion) && Chains.IsWalk(byVersion, head, w)
    requires forall c :: c in w && c.transformTarget != "" ==> Less(c.version, c.transformTarget)
    ensures Chains.DistinctVersions(w)
  {
    forall i, j | 0 <= i < j < |w| ensures w[i].version != w[j].version {
      WalkRises(byVersion, head, w, i, j);
      LessIrreflexive(w[i].version);
    }
  }

  lemma {:induction false} WalkRises(byVersion: Chains.Index, head: Chains.Contract, w: seq<Chains.Contract>,
      i: nat, j: nat)
    requires Chains.Filed(byVersion) && Chains.IsWalk(byVersion, head, w) && i < j < |w|
    requires forall c :: c in w && c.transformTarget != "" ==> Less(c.version, c.transformTarget)
    ensures Less(w[i].version, w[j].version)
    decreases j - i
  {
    Chains.WalkStep(byVersion, head, w, j - 1);
    assert w[j - 1] in w && w[j].version == w[j - 1].transformTarget;
    if i < j - 1 {
      WalkRises(byVersion, head, w, i, j - 1);
      LessTransitive(w[i].version, w[j - 1].version, w[j].version);
    }
  }

  // Adding a removed version again can leave its old override pointing at nothing.
  lemma ReaddedDangles()
    ensures var start := Run(State(["1", "2", "3"], map[]), {});
            var cs := [Retire("1"), Remove("1"), Remove("2"), Add("1", true, false)];
            After(start, cs).state == State(["1", "3"], map["1" := "2"])
  {
    var m := map["1" := "2"];
    var r0 := Run(State(["1", "2", "3"], map[]), {});
    var r1 := Run(State(["1", "2", "3"], m), {});
    var r2 := Run(State(["2", "3"], m), {"1"});
    var r3 := Run(State(["3"], m), {"1", "2"});
    var r4 := Run(State(["1", "3"], m), {"1", "2"});
    var add := Add("1", true, false);
    assert IndexOf(["1", "2", "3"], "1") == 0;
    assert Step(r0, Retire("1")) == r1;
    assert Step(r1, Remove("1")) == r2;
    assert Step(r2, Remove("2")) == r3;
    assert Step(r3, add) == r4;
    assert [add][1..] == [] && After(r3, [add]) == After(r4, []) == r4;
    assert [Remove("2"), add][1..] == [add] && After(r2, [Remove("2"), add]) == r4;
    assert [Remove("1"), Remove("2"), add][1..] == [Remove("2"), add]
        && After(r1, [Remove("1"), Remove("2"), add]) == r4;
    assert [Retire("1"), Remove("1"), Remove("2"), add][1..] == [Remove("1"), Remove("2"), add];
  }
}
