/**
 Transform chains (internal/bundle/bundle.go, resolveChains): each contract's transform targets are
 followed to a terminal contract at load, so that the request path only reads the result.
 */
module Chains {
  import opened Json
  import opened Transform

  // One resolved binding. An empty target or transformTarget means none.
  datatype Contract = Contract(
    version: string, route: string, verb: string,
    requestOps: seq<Op>, responseOps: seq<Op>,
    target: string, transformTarget: string)

  type Index = map<string, seq<Contract>>

  // The per-version index: every entry is filed under its own version.
  ghost predicate Filed(byVersion: Index) {
    forall v, c :: v in byVersion && c in byVersion[v] ==> c.version == v
  }

  predicate Binds(c: Contract, route: string, verb: string) {
    c.route == route && c.verb == verb
  }

  function FirstBinding(cs: seq<Contract>, route: string, verb: string): (r: Option<Contract>)
    ensures r.Some? ==> r.value in cs && Binds(r.value, route, verb)
    ensures r.None? ==> forall c :: c in cs ==> !Binds(c, route, verb)
  {
    if cs == [] then None
    else if Binds(cs[0], route, verb) then Some(cs[0])
    else FirstBinding(cs[1..], route, verb)
  }

  // Where a walk that serves (route, verb) goes from c.
  datatype Next = Terminal | UnknownVersion | Unbound | To(contract: Contract)

  function NextOf(byVersion: Index, c: Contract, route: string, verb: string): Next {
    if c.transformTarget == "" then Terminal
    else if c.transformTarget !in byVersion then UnknownVersion
    else
      match FirstBinding(byVersion[c.transformTarget], route, verb)
      case None => Unbound
      case Some(next) => To(next)
  }

  ghost predicate IsWalk(byVersion: Index, head: Contract, w: seq<Contract>) {
    && w != [] && w[0] == head
    && forall i :: 0 <= i < |w| - 1 ==> NextOf(byVersion, w[i], head.route, head.verb) == To(w[i + 1])
  }

  ghost predicate DistinctVersions(w: seq<Contract>) {
    forall i, j :: 0 <= i < j < |w| ==> w[i].version != w[j].version
  }

  function Last(w: seq<Contract>): Contract
    requires w != []
  {
    w[|w| - 1]
  }

  // A complete chain: no version twice, ending at a contract with no transform target.
  ghost predicate IsChain(byVersion: Index, head: Contract, w: seq<Contract>) {
    && IsWalk(byVersion, head, w) && DistinctVersions(w)
    && NextOf(byVersion, Last(w), head.route, head.verb) == Terminal
  }

  // A walk that cannot become a chain: it came back to a version, or its next step has nowhere to go.
  ghost predicate IsStuck(byVersion: Index, head: Contract, w: seq<Contract>) {
    && IsWalk(byVersion, head, w)
    && (|| !DistinctVersions(w)
        || NextOf(byVersion, Last(w), head.route, head.verb).UnknownVersion?
        || NextOf(byVersion, Last(w), head.route, head.verb).Unbound?)
  }

  lemma {:induction false} WalksAgree(byVersion: Index, head: Contract, w: seq<Contract>, x: seq<Contract>, i: nat)
    requires IsWalk(byVersion, head, w) && IsWalk(byVersion, head, x) && i < |w| && i < |x|
    ensures w[i] == x[i]
    decreases i
  {
    if i > 0 {
      WalksAgree(byVersion, head, w, x, i - 1);
      assert NextOf(byVersion, w[i - 1], head.route, head.verb) == To(w[i]);
      assert NextOf(byVersion, x[i - 1], head.route, head.verb) == To(x[i]);
    }
  }

  lemma WalkStep(byVersion: Index, head: Contract, w: seq<Contract>, i: nat)
    requires IsWalk(byVersion, head, w) && i < |w| - 1
    ensures NextOf(byVersion, w[i], head.route, head.verb) == To(w[i + 1])
  {
  }

  lemma ChainIsLongest(byVersion: Index, head: Contract, chain: seq<Contract>, w: seq<Contract>)
    requires IsChain(byVersion, head, chain) && IsWalk(byVersion, head, w)
    ensures |w| <= |chain|
    ensures w == chain[..|w|]
  {
    if |w| > |chain| {
      WalkStep(byVersion, head, w, |chain| - 1);
      WalksAgree(byVersion, head, chain, w, |chain| - 1);
    }
    forall i | 0 <= i < |w| ensures w[i] == chain[i] { WalksAgree(byVersion, head, w, chain, i); }
  }

  // A contract has a chain or a stuck walk, never both; and at most one chain.
  lemma ChainOrStuck(byVersion: Index, head: Contract, chain: seq<Contract>, w: seq<Contract>)
    requires IsChain(byVersion, head, chain)
    ensures !IsStuck(byVersion, head, w)
    ensures IsChain(byVersion, head, w) ==> w == chain
  {
    if IsWalk(byVersion, head, w) {
      ChainIsLongest(byVersion, head, chain, w);
      if |w| < |chain| { WalkStep(byVersion, head, chain, |w| - 1); }
    }
  }

  ghost function Versions(w: seq<Contract>): set<string> {
    set c | c in w :: c.version
  }

  lemma WalkExtends(byVersion: Index, head: Contract, w: seq<Contract>, next: Contract)
    requires IsWalk(byVersion, head, w) && NextOf(byVersion, Last(w), head.route, head.verb) == To(next)
    ensures IsWalk(byVersion, head, w + [next])
  {
    var x := w + [next];
    forall i | 0 <= i < |x| - 1 ensures NextOf(byVersion, x[i], head.route, head.verb) == To(x[i + 1]) {
      if i < |w| - 1 { WalkStep(byVersion, head, w, i); }
    }
  }

  lemma VersionsExtend(w: seq<Contract>, c: Contract)
    ensures Versions(w + [c]) == Versions(w) + {c.version}
    ensures c.version !in Versions(w) && DistinctVersions(w) ==> DistinctVersions(w + [c])
    ensures c.version in Versions(w) ==> !DistinctVersions(w + [c])
  {
    var x := w + [c];
    forall v | v in Versions(w) + {c.version} ensures v in Versions(x) {
      if v in Versions(w) {
        var d :| d in w && d.version == v;
        assert d in x;
      } else {
        assert c in x;
      }
    }
    if c.version in Versions(w) {
      var d :| d in w && d.version == c.version;
      var i :| 0 <= i < |w| && w[i] == d;
      assert x[i].version == x[|w|].version;
    }
  }

  // The walk from one contract, as the loader takes it.
  method ResolveChain(byVersion: Index, head: Contract) returns (chain: seq<Contract>, ok: bool)
    requires Filed(byVersion)
    ensures ok ==> IsChain(byVersion, head, chain)
    ensures !ok ==> IsStuck(byVersion, head, chain)
  {
    chain := [];
    var seen: set<string> := {};
    var current := head;
    ghost var all := byVersion.Keys + {head.version};
    while true
      invariant IsWalk(byVersion, head, chain + [current])
      invariant DistinctVersions(chain)
      invariant seen == Versions(chain) && seen <= all
      invariant current.version in all
      decreases all - seen
    {
      VersionsExtend(chain, current);
      chain := chain + [current];
      if current.version in seen {
        return chain, false;
      }
      assert current.version in all - seen;
      seen := seen + {current.version};
      if current.transformTarget == "" {
        return chain, true;
      }
      if current.transformTarget !in byVersion {
        return chain, false;
      }
      var next := FirstBinding(byVersion[current.transformTarget], head.route, head.verb);
      if next.None? {
        return chain, false;
      }
      WalkExtends(byVersion, head, chain, next.value);
      current := next.value;
    }
  }

  // All chains, or the first failure. The success condition is exact.
  method ResolveChains(contracts: seq<Contract>, byVersion: Index) returns (r: Option<map<Contract, seq<Contract>>>)
    requires Filed(byVersion)
    ensures r.Some? ==> forall c :: c in contracts ==> c in r.value && IsChain(byVersion, c, r.value[c])
    ensures r.None? ==> exists c, w :: c in contracts && IsStuck(byVersion, c, w)
  {
    var chains: map<Contract, seq<Contract>> := map[];
    for i := 0 to |contracts|
      invariant forall k :: 0 <= k < i ==> contracts[k] in chains
      invariant forall c :: c in chains ==> IsChain(byVersion, c, chains[c])
    {
      var chain, ok := ResolveChain(byVersion, contracts[i]);
      if !ok {
        assert contracts[i] in contracts && IsStuck(byVersion, contracts[i], chain);
        return None;
      }
      chains := chains[contracts[i] := chain];
    }
    return Some(chains);
  }

  // --- what a chain guarantees the request path ---

  ghost predicate Canonical(byVersion: Index, c: Contract) {
    c.version in byVersion && c in byVersion[c.version]
  }

  // A route override names a backend, a transform override another version; no contract has both.
  predicate OneDestination(c: Contract) {
    c.target == "" || c.transformTarget == ""
  }

  lemma {:induction false} WalkServesOneBinding(byVersion: Index, head: Contract, w: seq<Contract>, i: nat)
    requires Filed(byVersion) && IsWalk(byVersion, head, w) && i < |w|
    ensures Binds(w[i], head.route, head.verb)
    ensures i > 0 ==> Canonical(byVersion, w[i])
  {
    if i > 0 {
      assert NextOf(byVersion, w[i - 1], head.route, head.verb) == To(w[i]);
    }
  }

  // The shape of every resolved chain: distinct versions, one (route, method), canonical contracts
  // after the head, a named backend only at the end, and a tail that is its own head's chain.
  lemma ChainShape(byVersion: Index, head: Contract, chain: seq<Contract>)
    requires Filed(byVersion) && IsChain(byVersion, head, chain)
    requires forall c :: c in chain ==> OneDestination(c)
    ensures DistinctVersions(chain)
    ensures forall i :: 0 <= i < |chain| ==> Binds(chain[i], head.route, head.verb)
    ensures forall i :: 1 <= i < |chain| ==> Canonical(byVersion, chain[i])
    ensures forall i :: 0 <= i < |chain| - 1 ==> chain[i].target == ""
    ensures |chain| > 1 ==> IsChain(byVersion, chain[1], chain[1..])
    ensures |chain| > 1 ==> forall own :: IsChain(byVersion, chain[1], own) ==> own == chain[1..]
  {
    forall i | 0 <= i < |chain|
      ensures Binds(chain[i], head.route, head.verb) && (i > 0 ==> Canonical(byVersion, chain[i]))
    {
      WalkServesOneBinding(byVersion, head, chain, i);
    }
    forall i | 0 <= i < |chain| - 1 ensures chain[i].target == "" {
      assert NextOf(byVersion, chain[i], head.route, head.verb) == To(chain[i + 1]);
      assert OneDestination(chain[i]);
    }
    if |chain| > 1 {
      var tail := chain[1..];
      forall i | 0 <= i < |tail| - 1
        ensures NextOf(byVersion, tail[i], chain[1].route, chain[1].verb) == To(tail[i + 1])
      {
        assert tail[i] == chain[i + 1] && tail[i + 1] == chain[i + 2];
        assert NextOf(byVersion, chain[i + 1], head.route, head.verb) == To(chain[i + 2]);
      }
      forall i, j | 0 <= i < j < |tail| ensures tail[i].version != tail[j].version {
        assert chain[i + 1].version != chain[j + 1].version;
      }
      assert IsChain(byVersion, chain[1], tail);
      forall own | IsChain(byVersion, chain[1], own) ensures own == tail {
        ChainOrStuck(byVersion, chain[1], tail, own);
      }
    }
  }
}
