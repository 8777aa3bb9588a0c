/**
 The two folds of the proxy over a contract's chain (internal/server/http.go), and the chain mirror:
 renames undone by their swapped, reversed images bring every body back unchanged.
 */
module MirrorLaws {
  import opened Json
  import opened Transform
  import opened FusionLaws
  import opened OptionalizeLaws
  import InPlace

  datatype Link = Link(requestOps: seq<Op>, responseOps: seq<Op>)

  // What the proxy answers with: a transform failure and its status, or the transformed body.
  datatype Reply = Rejected(status: nat, reason: Failure) | Answered(body: Json)

  ghost predicate LinkWellFormed(link: Link) {
    AllWellFormed(link.requestOps) && AllWellFormed(link.responseOps)
  }

  ghost predicate ChainWellFormed(chain: seq<Link>) {
    forall i | 0 <= i < |chain| :: LinkWellFormed(chain[i])
  }

  // Request ops run from the client's version to the terminal one...
  ghost function Forward(lib: Numerics, chain: seq<Link>, body: Json): Result<Json>
    requires ChainWellFormed(chain)
  {
    if chain == [] then Ok(body)
    else
      var next :- Apply(lib, chain[0].requestOps, body);
      Forward(lib, chain[1..], next)
  }

  // ...and response ops from the terminal version back to the client's.
  ghost function Backward(lib: Numerics, chain: seq<Link>, body: Json): Result<Json>
    requires ChainWellFormed(chain)
  {
    if chain == [] then Ok(body)
    else
      var inner :- Backward(lib, chain[1..], body);
      Apply(lib, chain[0].responseOps, inner)
  }

  ghost function Proxied(lib: Numerics, chain: seq<Link>, body: Json, upstream: Json -> Json): Reply
    requires ChainWellFormed(chain)
  {
    match Forward(lib, chain, body)
    case Fail(e) => Rejected(422, e)
    case Ok(sent) =>
      match Backward(lib, chain, upstream(sent))
      case Fail(e) => Rejected(502, e)
      case Ok(answer) => Answered(answer)
  }

  // The body's way through `proxy`, with the upstream call as a function.
  method Proxy(lib: Numerics, chain: seq<Link>, body: Json, upstream: Json -> Json) returns (reply: Reply)
    requires ChainWellFormed(chain)
    ensures reply == Proxied(lib, chain, body, upstream)
  {
    var current := body;
    for i := 0 to |chain|
      invariant Forward(lib, chain, body) == Forward(lib, chain[i..], current)
    {
      assert LinkWellFormed(chain[i]) && chain[i..][1..] == chain[i + 1..];
      var r := InPlace.ApplyBody(lib, chain[i].requestOps, current);
      if r.Fail? {
        return Rejected(422, r.reason);
      }
      current := r.value;
    }
    current := upstream(current);
    ghost var received := current;
    assert chain[|chain|..] == [];
    for i := |chain| downto 0
      invariant Backward(lib, chain[i..], received) == Ok(current)
    {
      assert LinkWellFormed(chain[i]) && chain[i..][1..] == chain[i + 1..];
      var r := InPlace.ApplyBody(lib, chain[i].responseOps, current);
      if r.Fail? {
        BackwardFails(lib, chain, i, received, r.reason);
        return Rejected(502, r.reason);
      }
      current := r.value;
    }
    assert chain[0..] == chain;
    return Answered(current);
  }

  lemma {:induction false} BackwardFails(lib: Numerics, chain: seq<Link>, i: nat, body: Json, e: Failure)
    requires ChainWellFormed(chain)
    requires i < |chain| && Backward(lib, chain[i..], body) == Fail(e)
    ensures Backward(lib, chain, body) == Fail(e)
    decreases |chain|
  {
    if i == 0 {
      assert chain[0..] == chain;
    } else {
      assert chain[1..][i - 1..] == chain[i..];
      BackwardFails(lib, chain[1..], i - 1, body, e);
    }
  }

  // --- the mirror ---

  // What the loader asks of a rename: one parent, two leaf names.
  lemma SameParentExactly(p: Path, q: Path)
    ensures SameParentDifferentLeaf(p, q) <==>
              exists parent: Path, s: Segment, t: Segment :: ForksAt(p, q, parent, s, t) && s.name != t.name
  {
    if SameParentDifferentLeaf(p, q) {
      assert ForksAt(p, q, p[..|p| - 1], p[|p| - 1], q[|q| - 1]);
    }
    if parent: Path, s: Segment, t: Segment :| ForksAt(p, q, parent, s, t) && s.name != t.name {
      assert p[..|p| - 1] == parent == q[..|q| - 1];
    }
  }

  predicate ForksAt(p: Path, q: Path, parent: Path, s: Segment, t: Segment) {
    p == parent + [s] && q == parent + [t]
  }

  ghost predicate LoaderValidRename(op: Op) {
    op.Rename? && SameParentDifferentLeaf(op.from, op.to)
  }

  ghost predicate LoaderValidRenames(ops: seq<Op>) {
    forall i | 0 <= i < |ops| :: LoaderValidRename(ops[i])
  }

  function Swapped(op: Op): Op {
    if op.Rename? then Rename(op.to, op.from) else op
  }

  function Mirrored(ops: seq<Op>): seq<Op> {
    if ops == [] then [] else Mirrored(ops[1..]) + [Swapped(ops[0])]
  }

  // A link whose response side is the mirror image of its request side.
  ghost predicate MirrorLink(link: Link) {
    LoaderValidRenames(link.requestOps) && link.responseOps == Mirrored(link.requestOps)
  }

  ghost predicate MirrorChain(chain: seq<Link>) {
    forall i | 0 <= i < |chain| :: MirrorLink(chain[i])
  }

  // g at `there` undoes f at `here`.
  ghost predicate Undoes(f: LeafFn, here: string, g: LeafFn, there: string) {
    forall m: Fields :: f(m, here).Ok? ==> g(f(m, here).value, there) == Ok(m)
  }

  lemma {:induction false} WalkUndone(obj: Fields, p: Path, q: Path, f: LeafFn, g: LeafFn)
    requires |p| == |q| > 0 && p[..|p| - 1] == q[..|q| - 1]
    requires Undoes(f, p[|p| - 1].name, g, q[|q| - 1].name)
    requires Walk(obj, p, [], f).Ok?
    ensures Walk(Walk(obj, p, [], f).value, q, [], g) == Ok(obj)
    decreases |p|, 0
  {
    if |p| > 1 {
      var name := p[0].name;
      assert p[0] == p[..|p| - 1][0] == q[..|q| - 1][0] == q[0];
      assert p[1..][..|p| - 2] == p[..|p| - 1][1..] == q[..|q| - 1][1..] == q[1..][..|q| - 2];
      if p[0].isArray {
        WalkEachUndone(obj[name].elems, p[1..], q[1..], f, g);
        var mid := obj[name := Arr(WalkEach(obj[name].elems, p[1..], [], f).value)];
        assert Walk(obj, p, [], f).value == mid;
        assert mid[name := obj[name]] == obj;
      } else {
        WalkUndone(obj[name].fields, p[1..], q[1..], f, g);
        var mid := obj[name := Obj(Walk(obj[name].fields, p[1..], [], f).value)];
        assert Walk(obj, p, [], f).value == mid;
        assert mid[name := obj[name]] == obj;
      }
    }
  }

  lemma {:induction false} WalkEachUndone(elems: seq<Json>, p: Path, q: Path, f: LeafFn, g: LeafFn)
    requires |p| == |q| > 0 && p[..|p| - 1] == q[..|q| - 1]
    requires Undoes(f, p[|p| - 1].name, g, q[|q| - 1].name)
    requires WalkEach(elems, p, [], f).Ok?
    ensures WalkEach(WalkEach(elems, p, [], f).value, q, [], g) == Ok(elems)
    decreases |p|, 1 + |elems|
  {
    if elems != [] {
      WalkUndone(elems[0].fields, p, q, f, g);
      WalkEachUndone(elems[1..], p, q, f, g);
      var mid := WalkEach(elems, p, [], f).value;
      assert mid[1..] == WalkEach(elems[1..], p, [], f).value;
      assert [elems[0]] + elems[1..] == elems;
    }
  }

  lemma RenameUndone(lib: Numerics, op: Op, obj: Fields)
    requires LoaderValidRename(op) && Step(lib, op, [], obj).Ok?
    ensures Step(lib, Swapped(op), [], Step(lib, op, [], obj).value) == Ok(obj)
  {
    var from, to := op.from[|op.from| - 1].name, op.to[|op.to| - 1].name;
    var f, g := RenameLeaf(to, false), RenameLeaf(from, false);
    assert !Covers([], op.from) && !Covers([], op.to);
    forall m: Fields | f(m, from).Ok? ensures g(f(m, from).value, to) == Ok(m) {
      var mid := (m - {from})[to := m[from]];
      assert f(m, from) == Ok(mid);
      assert (mid - {to})[from := m[from]] == m;
    }
    WalkUndone(obj, op.from, op.to, f, g);
  }

  lemma {:induction false} MirroredShape(ops: seq<Op>)
    requires LoaderValidRenames(ops)
    ensures AllWellFormed(ops) && LoaderValidRenames(Mirrored(ops)) && AllWellFormed(Mirrored(ops))
    ensures AllTolerated(Mirrored(ops)) == []
    decreases |ops|
  {
    if ops != [] {
      MirroredShape(ops[1..]);
      assert LoaderValidRename(ops[0]) && LoaderValidRename(Swapped(ops[0]));
    }
    NothingTolerated(Mirrored(ops));
  }

  lemma {:induction false} NothingTolerated(ops: seq<Op>)
    requires LoaderValidRenames(ops)
    ensures AllTolerated(ops) == []
    decreases |ops|
  {
    if ops != [] {
      assert LoaderValidRename(ops[0]);
      NothingTolerated(ops[1..]);
    }
  }

  lemma {:induction false} RunUndone(lib: Numerics, ops: seq<Op>, obj: Fields)
    requires LoaderValidRenames(ops)
    requires AllWellFormed(ops) && Run(lib, ops, [], obj).Ok?
    ensures AllWellFormed(Mirrored(ops))
    ensures Run(lib, Mirrored(ops), [], Run(lib, ops, [], obj).value) == Ok(obj)
    decreases |ops|
  {
    MirroredShape(ops);
    if ops != [] {
      var rest, back := ops[1..], [Swapped(ops[0])];
      var next := Step(lib, ops[0], [], obj).value;
      assert [] + Tolerated(ops[0]) == [];
      RunUndone(lib, rest, next);
      MirroredShape(rest);
      var end := Run(lib, ops, [], obj).value;
      RunConcat(lib, Mirrored(rest), back, [], end);
      RenameUndone(lib, ops[0], obj);
      assert [] + AllTolerated(Mirrored(rest)) == [];
      assert Run(lib, back[1..], [], obj) == Ok(obj);
      assert Run(lib, back, [], next) == Ok(obj);
    }
  }

  lemma ApplyUndone(lib: Numerics, link: Link, body: Json)
    requires MirrorLink(link) && LinkWellFormed(link) && Decoded(body)
    requires Apply(lib, link.requestOps, body).Ok?
    ensures Decoded(Apply(lib, link.requestOps, body).value)
    ensures Apply(lib, link.responseOps, Apply(lib, link.requestOps, body).value) == Ok(body)
  {
    var ops := link.requestOps;
    if ops != [] {
      var out := Run(lib, ops, [], body.fields).value;
      forall i | 0 <= i < |ops| ensures !ops[i].Default? { assert LoaderValidRename(ops[i]); }
      RunKeepsClean(lib, ops, [], body.fields);
      ReencodeIdentity(lib, Obj(out));
      RunUndone(lib, ops, body.fields);
      ReencodeIdentity(lib, body);
    }
  }

  lemma MirrorLinksWellFormed(chain: seq<Link>)
    requires MirrorChain(chain)
    ensures ChainWellFormed(chain)
  {
    forall i | 0 <= i < |chain| ensures LinkWellFormed(chain[i]) {
      assert MirrorLink(chain[i]);
      MirroredShape(chain[i].requestOps);
    }
  }

  lemma {:induction false} ChainMirror(lib: Numerics, chain: seq<Link>, body: Json)
    requires MirrorChain(chain) && ChainWellFormed(chain)
    requires Decoded(body) && Forward(lib, chain, body).Ok?
    ensures Backward(lib, chain, Forward(lib, chain, body).value) == Ok(body)
    decreases |chain|
  {
    if chain != [] {
      var next := Apply(lib, chain[0].requestOps, body).value;
      ApplyUndone(lib, chain[0], body);
      ChainMirror(lib, chain[1..], next);
    }
  }

  // End to end: over a mirrored chain an upstream that echoes is invisible to the client, for every
  // body the request side lets through.
  lemma EchoIsInvisible(lib: Numerics, chain: seq<Link>, body: Json)
    requires MirrorChain(chain)
    requires Decoded(body)
    ensures ChainWellFormed(chain)
    ensures var reply := Proxied(lib, chain, body, (sent: Json) => sent);
            reply == Answered(body) || (reply.Rejected? && reply.status == 422)
  {
    MirrorLinksWellFormed(chain);
    if Forward(lib, chain, body).Ok? {
      ChainMirror(lib, chain, body);
    }
  }

  // --- the whole request side as one list ---

  function AllRequestOps(chain: seq<Link>): seq<Op> {
    if chain == [] then [] else chain[0].requestOps + AllRequestOps(chain[1..])
  }

  lemma {:induction false} AllRequestOpsWellFormed(chain: seq<Link>)
    requires ChainWellFormed(chain)
    ensures AllWellFormed(AllRequestOps(chain))
    decreases |chain|
  {
    if chain != [] {
      assert LinkWellFormed(chain[0]);
      AllRequestOpsWellFormed(chain[1..]);
      WellFormedConcat(chain[0].requestOps, AllRequestOps(chain[1..]));
    }
  }

  lemma ApplyStaysObject(lib: Numerics, ops: seq<Op>, body: Json)
    requires AllWellFormed(ops) && body.Obj? && Decoded(body) && Apply(lib, ops, body).Ok?
    ensures Apply(lib, ops, body).value.Obj? && Decoded(Apply(lib, ops, body).value)
  {
    if ops != [] { ReencodeIsDecoded(lib, Obj(Run(lib, ops, [], body.fields).value)); }
  }

  // Where the forward fold succeeds, one call with all request ops gives the same tree, as long as
  // no link's default injects an integer.
  lemma {:induction false} ForwardFuses(lib: Numerics, chain: seq<Link>, body: Json)
    requires ChainWellFormed(chain) && body.Obj? && Decoded(body)
    requires forall i :: 0 <= i < |chain| ==> DefaultsIntegerFree(chain[i].requestOps)
    requires Forward(lib, chain, body).Ok?
    ensures AllWellFormed(AllRequestOps(chain))
    ensures Apply(lib, AllRequestOps(chain), body) == Forward(lib, chain, body)
    decreases |chain|
  {
    AllRequestOpsWellFormed(chain);
    if chain != [] {
      assert LinkWellFormed(chain[0]);
      ApplyStaysObject(lib, chain[0].requestOps, body);
      var next := Apply(lib, chain[0].requestOps, body).value;
      forall i | 0 <= i < |chain[1..]| ensures DefaultsIntegerFree(chain[1..][i].requestOps) {
        assert chain[1..][i] == chain[i + 1];
      }
      ForwardFuses(lib, chain[1..], next);
      Fusion(lib, chain[0].requestOps, AllRequestOps(chain[1..]), body);
    }
  }

  // One link, seen from a tree that differs from the body by injected integers only: it ends on the
  // same tree, but for integers.
  lemma LinkRunsAlike(lib: Numerics, ops: seq<Op>, body: Json, opts: seq<Path>, obj: Fields)
    requires AllWellFormed(ops) && body.Obj? && Decoded(body) && Same(lib, obj, body.fields)
    requires Apply(lib, ops, body).Ok? && !MeetsInteger(lib, ops, opts, obj)
    ensures Run(lib, ops, opts, obj).Ok? && Apply(lib, ops, body).value.Obj?
    ensures Same(lib, Run(lib, ops, opts, obj).value, Apply(lib, ops, body).value.fields)
  {
    ReencodeIdentity(lib, body);
    if ops != [] {
      InsertedRefl(ops);
      RunMonotone(lib, ops, ops, [], opts, body.fields);
      var t := Run(lib, ops, [], body.fields).value;
      if MeetsInteger(lib, ops, opts, body.fields) { MeetingFails(lib, ops, opts, body.fields); }
      RunsAlike(lib, ops, opts, obj, body.fields);
      ReencodeIsDecoded(lib, Obj(t));
      ReencodeIdentity(lib, Reencode(lib, Obj(t)));
    }
  }

  lemma {:induction false} ForwardRunsAlike(lib: Numerics, chain: seq<Link>, body: Json, opts: seq<Path>, obj: Fields)
    requires ChainWellFormed(chain) && body.Obj? && Decoded(body) && Forward(lib, chain, body).Ok?
    requires Same(lib, obj, body.fields)
    requires AllWellFormed(AllRequestOps(chain)) && !MeetsInteger(lib, AllRequestOps(chain), opts, obj)
    ensures var r := Run(lib, AllRequestOps(chain), opts, obj);
            && r.Ok? && Encodable(Obj(r.value)) && Forward(lib, chain, body) == Ok(Reencode(lib, Obj(r.value)))
    decreases |chain|
  {
    if chain == [] {
      ReencodeIdentity(lib, body);
      SameEncodes(lib, obj, body.fields);
    } else {
      assert LinkWellFormed(chain[0]);
      var ops, rest := chain[0].requestOps, AllRequestOps(chain[1..]);
      AllRequestOpsWellFormed(chain[1..]);
      MeetsConcat(lib, ops, rest, opts, obj);
      LinkRunsAlike(lib, ops, body, opts, obj);
      ApplyStaysObject(lib, ops, body);
      ForwardRunsAlike(lib, chain[1..], Apply(lib, ops, body).value, opts + AllTolerated(ops),
          Run(lib, ops, opts, obj).value);
      RunConcat(lib, ops, rest, opts, obj);
    }
  }

  // Fusion of a whole chain, exactly: where the forward fold succeeds, one call with all request ops
  // gives the same tree iff it meets no integer at a leaf it coerces.
  lemma ForwardFusesExactly(lib: Numerics, chain: seq<Link>, body: Json)
    requires ChainWellFormed(chain) && body.Obj? && Decoded(body) && Forward(lib, chain, body).Ok?
    ensures AllWellFormed(AllRequestOps(chain))
    ensures Apply(lib, AllRequestOps(chain), body) == Forward(lib, chain, body) <==>
            !MeetsInteger(lib, AllRequestOps(chain), [], body.fields)
  {
    var ops := AllRequestOps(chain);
    AllRequestOpsWellFormed(chain);
    ReencodeIdentity(lib, body);
    if MeetsInteger(lib, ops, [], body.fields) {
      MeetingFails(lib, ops, [], body.fields);
    } else {
      ForwardRunsAlike(lib, chain, body, [], body.fields);
    }
  }
}
