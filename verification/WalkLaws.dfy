/**
 What a read-mode walk does, told by positions in the tree: it rewrites exactly the leaf parents its
 path leads to, each by the verb, and leaves every other place alone.
 */
module WalkLaws {
  import opened Json
  import opened Transform

  datatype Hop = Key(name: string) | Index(i: nat)
  type Position = seq<Hop>

  function At(j: Json, pos: Position): Option<Json>
    decreases |pos|
  {
    if pos == [] then Some(j)
    else
      match pos[0]
      case Key(name) => if j.Obj? && name in j.fields then At(j.fields[name], pos[1..]) else None
      case Index(i) => if j.Arr? && i < |j.elems| then At(j.elems[i], pos[1..]) else None
  }

  function Below(hops: Position, ps: seq<Position>): seq<Position> {
    seq(|ps|, i requires 0 <= i < |ps| => hops + ps[i])
  }

  // The leaf parents a read-mode walk hands to its verb, in order.
  function ReadLeaves(obj: Fields, p: Path, opts: seq<Path>): Result<seq<Position>>
    decreases |p|, 0
  {
    if |p| == 0 then Fail(EmptyPath)
    else if |p| == 1 then Ok([[]])
    else
      var name := p[0].name;
      if Missing(obj, name) then
        if Covers(opts, p) then Ok([]) else Fail(Absent)
      else if p[0].isArray then
        if !obj[name].Arr? then Fail(WrongShape)
        else ReadLeavesFrom(obj[name].elems, 0, name, p[1..], opts)
      else if !obj[name].Obj? then Fail(WrongShape)
      else
        var inner :- ReadLeaves(obj[name].fields, p[1..], opts);
        Ok(Below([Key(name)], inner))
  }

  function ReadLeavesFrom(elems: seq<Json>, i: nat, name: string, p: Path, opts: seq<Path>): Result<seq<Position>>
    requires i <= |elems|
    decreases |p|, 1 + |elems| - i
  {
    if i == |elems| then Ok([])
    else if !elems[i].Obj? then Fail(WrongShape)
    else
      var head :- ReadLeaves(elems[i].fields, p, opts);
      var tail :- ReadLeavesFrom(elems, i + 1, name, p, opts);
      Ok(Below([Key(name), Index(i)], head) + tail)
  }

  lemma BelowMember(hops: Position, ps: seq<Position>, pos: Position) returns (l: Position)
    requires pos in Below(hops, ps)
    ensures l in ps && pos == hops + l
  {
    var n :| 0 <= n < |ps| && pos == hops + ps[n];
    l := ps[n];
  }

  lemma InBelow(hops: Position, ps: seq<Position>, l: Position)
    requires l in ps
    ensures hops + l in Below(hops, ps)
  {
    var n :| 0 <= n < |ps| && ps[n] == l;
    assert Below(hops, ps)[n] == hops + l;
  }

  // --- what a walk does ---

  lemma AtBelow(j: Json, hops: Position, pos: Position)
    requires At(j, hops).Some?
    ensures At(j, hops + pos) == At(At(j, hops).value, pos)
    decreases |hops|
  {
    if hops == [] {
      assert hops + pos == pos;
    } else {
      assert (hops + pos)[1..] == hops[1..] + pos;
      match hops[0]
      case Key(name) => AtBelow(j.fields[name], hops[1..], pos);
      case Index(i) => AtBelow(j.elems[i], hops[1..], pos);
    }
  }

  predicate Comparable(a: Position, b: Position) {
    a <= b || b <= a
  }

  // At `pos` the object m became the object the verb makes of it.
  ghost predicate Rewritten(before: Json, after: Json, pos: Position, leaf: string, f: LeafFn) {
    && At(before, pos).Some? && At(before, pos).value.Obj?
    && At(after, pos).Some? && At(after, pos).value.Obj?
    && f(At(before, pos).value.fields, leaf) == Ok(At(after, pos).value.fields)
  }

  // `after` differs from `before` only by the verb at the given leaf parents.
  ghost predicate RewrittenExactly(before: Json, after: Json, leaves: seq<Position>, leaf: string, f: LeafFn) {
    && (forall pos :: pos in leaves ==> Rewritten(before, after, pos, leaf, f))
    && (forall pos :: (forall l :: l in leaves ==> !Comparable(l, pos)) ==> At(after, pos) == At(before, pos))
  }

  lemma {:induction false} ReadLeavesFromMembers(elems: seq<Json>, i: nat, name: string, p: Path, opts: seq<Path>)
    requires i <= |elems| && ReadLeavesFrom(elems, i, name, p, opts).Ok?
    ensures forall k :: i <= k < |elems| ==> elems[k].Obj? && ReadLeaves(elems[k].fields, p, opts).Ok?
    ensures forall pos :: pos in ReadLeavesFrom(elems, i, name, p, opts).value ==>
              exists k :: i <= k < |elems| && pos in Below([Key(name), Index(k)],
                  ReadLeaves(elems[k].fields, p, opts).value)
    ensures forall k :: i <= k < |elems| ==>
              forall l :: l in ReadLeaves(elems[k].fields, p, opts).value ==>
                [Key(name), Index(k)] + l in ReadLeavesFrom(elems, i, name, p, opts).value
    decreases |elems| - i
  {
    if i < |elems| {
      ReadLeavesFromMembers(elems, i + 1, name, p, opts);
      var all := ReadLeavesFrom(elems, i, name, p, opts).value;
      var head := ReadLeaves(elems[i].fields, p, opts).value;
      var hops := [Key(name), Index(i)];
      forall l | l in head ensures hops + l in all {
        var n :| 0 <= n < |head| && head[n] == l;
        assert all[n] == Below(hops, head)[n] == hops + l;
      }
      forall k, l | i < k < |elems| && l in ReadLeaves(elems[k].fields, p, opts).value
        ensures [Key(name), Index(k)] + l in all
      {
        assert [Key(name), Index(k)] + l in ReadLeavesFrom(elems, i + 1, name, p, opts).value;
      }
    }
  }

  lemma {:induction false} WalkEachPointwise(elems: seq<Json>, p: Path, opts: seq<Path>, f: LeafFn)
    requires WalkEach(elems, p, opts, f).Ok?
    ensures forall i :: 0 <= i < |elems| ==>
              && elems[i].Obj? && WalkEach(elems, p, opts, f).value[i].Obj?
              && Walk(elems[i].fields, p, opts, f) == Ok(WalkEach(elems, p, opts, f).value[i].fields)
    decreases |elems|
  {
    if elems != [] {
      WalkEachPointwise(elems[1..], p, opts, f);
      var r := WalkEach(elems, p, opts, f).value;
      forall i | 0 < i < |elems|
        ensures elems[i].Obj? && r[i].Obj? && Walk(elems[i].fields, p, opts, f) == Ok(r[i].fields)
      {
        assert elems[i] == elems[1..][i - 1] && r[i] == r[1..][i - 1];
      }
    }
  }

  lemma {:induction false} ReadLeavesFromSucceeds(elems: seq<Json>, i: nat, name: string, p: Path, opts: seq<Path>)
    requires i <= |elems|
    requires forall k :: 0 <= k < |elems| ==> elems[k].Obj? && ReadLeaves(elems[k].fields, p, opts).Ok?
    ensures ReadLeavesFrom(elems, i, name, p, opts).Ok?
    decreases |elems| - i
  {
    if i < |elems| { ReadLeavesFromSucceeds(elems, i + 1, name, p, opts); }
  }

  lemma LeafRewritten(obj: Fields, leaf: string, f: LeafFn)
    requires f(obj, leaf).Ok?
    ensures RewrittenExactly(Obj(obj), Obj(f(obj, leaf).value), [[]], leaf, f)
  {
    var leaves: seq<Position> := [[]];
    assert leaves[0] == [] && [] in leaves;
    forall pos: Position ensures Comparable([], pos) {}
  }

  // A successful walk can list its leaves, and rewrote exactly those.
  ghost predicate WalkEffect(obj: Fields, p: Path, opts: seq<Path>, f: LeafFn) {
    Walk(obj, p, opts, f).Ok? ==>
      && ReadLeaves(obj, p, opts).Ok?
      && RewrittenExactly(Obj(obj), Obj(Walk(obj, p, opts, f).value), ReadLeaves(obj, p, opts).value,
          p[|p| - 1].name, f)
  }

  lemma WalkEffectField(obj: Fields, p: Path, opts: seq<Path>, f: LeafFn)
    requires |p| > 1 && !Missing(obj, p[0].name) && !p[0].isArray && obj[p[0].name].Obj?
    requires WalkEffect(obj[p[0].name].fields, p[1..], opts, f)
    ensures WalkEffect(obj, p, opts, f)
  {
    var name := p[0].name;
    if Walk(obj, p, opts, f).Ok? {
      ObjectRewritten(obj, Walk(obj, p, opts, f).value, name, ReadLeaves(obj[name].fields, p[1..], opts).value,
          p[|p| - 1].name, f);
    }
  }

  lemma WalkEffectArray(obj: Fields, p: Path, opts: seq<Path>, f: LeafFn)
    requires |p| > 1 && !Missing(obj, p[0].name) && p[0].isArray && obj[p[0].name].Arr?
    requires WalkEach(obj[p[0].name].elems, p[1..], opts, f).Ok?
    requires ElementsRewritten(obj[p[0].name].elems, WalkEach(obj[p[0].name].elems, p[1..], opts, f).value, p[1..],
             opts, f)
    ensures WalkEffect(obj, p, opts, f)
  {
    var name := p[0].name;
    ReadLeavesFromSucceeds(obj[name].elems, 0, name, p[1..], opts);
    ArrayRewritten(obj, Walk(obj, p, opts, f).value, name, p[1..], opts, f);
  }

  // The effect of a successful walk, whatever the verb.
  lemma {:induction false} WalkRewritesExactly(obj: Fields, p: Path, opts: seq<Path>, f: LeafFn)
    ensures WalkEffect(obj, p, opts, f)
    decreases |p|, 0
  {
    if Walk(obj, p, opts, f).Ok? {
      var name := p[0].name;
      if |p| == 1 {
        LeafRewritten(obj, name, f);
      } else if Missing(obj, name) {
      } else if p[0].isArray {
        WalkEachRewritesExactly(obj[name].elems, p[1..], opts, f);
        WalkEffectArray(obj, p, opts, f);
      } else {
        WalkRewritesExactly(obj[name].fields, p[1..], opts, f);
        WalkEffectField(obj, p, opts, f);
      }
    }
  }

  lemma {:induction false} WalkEachRewritesExactly(es: seq<Json>, p: Path, opts: seq<Path>, f: LeafFn)
    requires |p| > 0 && WalkEach(es, p, opts, f).Ok?
    ensures ElementsRewritten(es, WalkEach(es, p, opts, f).value, p, opts, f)
    decreases |p|, 1
  {
    WalkEachPointwise(es, p, opts, f);
    forall k | 0 <= k < |es|
      ensures es[k].Obj? && ReadLeaves(es[k].fields, p, opts).Ok?
      ensures RewrittenExactly(es[k], WalkEach(es, p, opts, f).value[k],
                ReadLeaves(es[k].fields, p, opts).value, p[|p| - 1].name, f)
    {
      WalkRewritesExactly(es[k].fields, p, opts, f);
    }
  }

  // --- when a walk fails ---

  function Leaf(p: Path): string {
    if p == [] then "" else p[|p| - 1].name
  }

  ghost predicate Accepts(j: Json, pos: Position, leaf: string, f: LeafFn) {
    At(j, pos).Some? && At(j, pos).value.Obj? && f(At(j, pos).value.fields, leaf).Ok?
  }

  ghost predicate Refuses(j: Json, pos: Position, leaf: string, f: LeafFn, e: Failure) {
    At(j, pos).Some? && At(j, pos).value.Obj? && f(At(j, pos).value.fields, leaf) == Fail(e)
  }

  // The verb itself refuses an object it is handed: one of the listed leaf parents, when the list is complete.
  ghost predicate VerbFails(obj: Fields, p: Path, opts: seq<Path>, f: LeafFn, e: Failure) {
    exists pos ::
      Refuses(Obj(obj), pos, Leaf(p), f, e) && (ReadLeaves(obj, p, opts).Ok? ==> pos in ReadLeaves(obj, p, opts).value)
  }

  ghost predicate VerbFailsFrom(elems: seq<Json>, i: nat, name: string, p: Path, opts: seq<Path>, f: LeafFn, e: Failure)
    requires i <= |elems|
  {
    exists k, l ::
      && i <= k < |elems| && Refuses(elems[k], l, Leaf(p), f, e)
      && (ReadLeavesFrom(elems, i, name, p, opts).Ok? ==>
          [Key(name), Index(k)] + l in ReadLeavesFrom(elems, i, name, p, opts).value)
  }

  // A failing walk could not list its leaf parents, or its verb refused one.
  ghost predicate FailureExplained(obj: Fields, p: Path, opts: seq<Path>, f: LeafFn) {
    Walk(obj, p, opts, f).Fail? ==>
      ReadLeaves(obj, p, opts) == Fail(Walk(obj, p, opts, f).reason)
          || VerbFails(obj, p, opts, f, Walk(obj, p, opts, f).reason)
  }

  ghost predicate FailureExplainedFrom(elems: seq<Json>, i: nat, name: string, p: Path, opts: seq<Path>, f: LeafFn)
    requires i <= |elems|
  {
    var r := WalkEach(elems[i..], p, opts, f);
    r.Fail? ==>
        ReadLeavesFrom(elems, i, name, p, opts) == Fail(r.reason) || VerbFailsFrom(elems, i, name, p, opts, f, r.reason)
  }

  lemma {:induction false} WalkFailsAs(obj: Fields, p: Path, opts: seq<Path>, f: LeafFn)
    ensures FailureExplained(obj, p, opts, f)
    decreases |p|, 0
  {
    if |p| == 1 {
      var r := Walk(obj, p, opts, f);
      assert ReadLeaves(obj, p, opts).value[0] == [];
      if r.Fail? { assert Refuses(Obj(obj), [], Leaf(p), f, r.reason); }
    } else if |p| > 1 && !Missing(obj, p[0].name) {
      var v := obj[p[0].name];
      if p[0].isArray && v.Arr? {
        assert v.elems[0..] == v.elems;
        WalkEachFailsAs(v.elems, 0, p[0].name, p[1..], opts, f);
        ArrayFailure(obj, p, opts, f);
      } else if !p[0].isArray && v.Obj? {
        WalkFailsAs(v.fields, p[1..], opts, f);
        FieldFailure(obj, p, opts, f);
      }
    }
  }

  lemma FieldFailure(obj: Fields, p: Path, opts: seq<Path>, f: LeafFn)
    requires |p| > 1 && !Missing(obj, p[0].name) && !p[0].isArray && obj[p[0].name].Obj?
    requires FailureExplained(obj[p[0].name].fields, p[1..], opts, f)
    ensures FailureExplained(obj, p, opts, f)
  {
    var sub := obj[p[0].name].fields;
    var r := Walk(sub, p[1..], opts, f);
    if r.Fail? && VerbFails(sub, p[1..], opts, f, r.reason) {
      var pos :| Refuses(Obj(sub), pos, Leaf(p[1..]), f, r.reason)
        && (ReadLeaves(sub, p[1..], opts).Ok? ==> pos in ReadLeaves(sub, p[1..], opts).value);
      var hops := [Key(p[0].name)];
      assert (hops + pos)[1..] == pos;
      if ReadLeaves(sub, p[1..], opts).Ok? { InBelow(hops, ReadLeaves(sub, p[1..], opts).value, pos); }
      assert Refuses(Obj(obj), hops + pos, Leaf(p), f, r.reason);
    }
  }

  lemma ArrayFailure(obj: Fields, p: Path, opts: seq<Path>, f: LeafFn)
    requires |p| > 1 && !Missing(obj, p[0].name) && p[0].isArray && obj[p[0].name].Arr?
    requires obj[p[0].name].elems[0..] == obj[p[0].name].elems
    requires FailureExplainedFrom(obj[p[0].name].elems, 0, p[0].name, p[1..], opts, f)
    ensures FailureExplained(obj, p, opts, f)
  {
    var name, es := p[0].name, obj[p[0].name].elems;
    var r := WalkEach(es, p[1..], opts, f);
    if r.Fail? && VerbFailsFrom(es, 0, name, p[1..], opts, f, r.reason) {
      var k, l :| 0 <= k < |es| && Refuses(es[k], l, Leaf(p[1..]), f, r.reason)
        && (ReadLeavesFrom(es, 0, name, p[1..], opts).Ok? ==>
            [Key(name), Index(k)] + l in ReadLeavesFrom(es, 0, name, p[1..], opts).value);
      ElementAt(obj, name, k, l);
      assert Refuses(Obj(obj), [Key(name), Index(k)] + l, Leaf(p), f, r.reason);
    }
  }

  lemma {:induction false} WalkEachFailsAs(elems: seq<Json>, i: nat, name: string, p: Path, opts: seq<Path>, f: LeafFn)
    requires i <= |elems| && |p| > 0
    ensures FailureExplainedFrom(elems, i, name, p, opts, f)
    decreases |p|, 1 + |elems| - i
  {
    if i < |elems| && elems[i].Obj? {
      assert elems[i..][1..] == elems[i + 1..];
      WalkFailsAs(elems[i].fields, p, opts, f);
      WalkRewritesExactly(elems[i].fields, p, opts, f);
      WalkEachFailsAs(elems, i + 1, name, p, opts, f);
      ElementFailure(elems, i, name, p, opts, f);
    }
  }

  lemma ElementFailure(elems: seq<Json>, i: nat, name: string, p: Path, opts: seq<Path>, f: LeafFn)
    requires i < |elems| && |p| > 0 && elems[i].Obj? && elems[i..][1..] == elems[i + 1..]
    requires FailureExplained(elems[i].fields, p, opts, f) && WalkEffect(elems[i].fields, p, opts, f)
    requires FailureExplainedFrom(elems, i + 1, name, p, opts, f)
    ensures FailureExplainedFrom(elems, i, name, p, opts, f)
  {
    var head, tail := Walk(elems[i].fields, p, opts, f), WalkEach(elems[i + 1..], p, opts, f);
    var inner, all := ReadLeaves(elems[i].fields, p, opts), ReadLeavesFrom(elems, i, name, p, opts);
    if head.Fail? && VerbFails(elems[i].fields, p, opts, f, head.reason) {
      var l :| Refuses(Obj(elems[i].fields), l, Leaf(p), f, head.reason) && (inner.Ok? ==> l in inner.value);
      if all.Ok? { InBelow([Key(name), Index(i)], inner.value, l); }
      assert Refuses(elems[i], l, Leaf(p), f, head.reason);
    } else if head.Ok? && tail.Fail? && VerbFailsFrom(elems, i + 1, name, p, opts, f, tail.reason) {
      var rest := ReadLeavesFrom(elems, i + 1, name, p, opts);
      var k, l :| i < k < |elems| && Refuses(elems[k], l, Leaf(p), f, tail.reason)
        && (rest.Ok? ==> [Key(name), Index(k)] + l in rest.value);
      assert Refuses(elems[k], l, Leaf(p), f, tail.reason);
    }
  }

  // A walk succeeds exactly when its leaf parents can be listed and the verb accepts each of them.
  lemma WalkSucceedsExactly(obj: Fields, p: Path, opts: seq<Path>, f: LeafFn)
    ensures Walk(obj, p, opts, f).Ok? <==>
              && ReadLeaves(obj, p, opts).Ok?
              && forall pos :: pos in ReadLeaves(obj, p, opts).value ==> Accepts(Obj(obj), pos, Leaf(p), f)
    ensures FailureExplained(obj, p, opts, f)
  {
    WalkFailsAs(obj, p, opts, f);
    WalkRewritesExactly(obj, p, opts, f);
    if Walk(obj, p, opts, f).Ok? {
      forall pos | pos in ReadLeaves(obj, p, opts).value ensures Accepts(Obj(obj), pos, Leaf(p), f) {
        assert Rewritten(Obj(obj), Obj(Walk(obj, p, opts, f).value), pos, Leaf(p), f);
      }
    }
  }

  // --- two verbs that agree where it matters ---

  ghost predicate AgreeAt(j: Json, leaves: seq<Position>, leaf: string, f: LeafFn, g: LeafFn) {
    forall pos :: pos in leaves ==>
      At(j, pos).Some? && At(j, pos).value.Obj? ==> f(At(j, pos).value.fields, leaf) == g(At(j, pos).value.fields, leaf)
  }

  // Verbs that agree on the leaf parents give the same walk.
  lemma {:induction false} WalkAgrees(obj: Fields, p: Path, opts: seq<Path>, f: LeafFn, g: LeafFn)
    requires ReadLeaves(obj, p, opts).Ok? && AgreeAt(Obj(obj), ReadLeaves(obj, p, opts).value, Leaf(p), f, g)
    ensures Walk(obj, p, opts, f) == Walk(obj, p, opts, g)
    decreases |p|, 0
  {
    if |p| == 1 {
      assert At(Obj(obj), []) == Some(Obj(obj)) && [] in ReadLeaves(obj, p, opts).value;
    } else if !Missing(obj, p[0].name) {
      var name := p[0].name;
      if p[0].isArray {
        ReadLeavesFromMembers(obj[name].elems, 0, name, p[1..], opts);
        forall k | 0 <= k < |obj[name].elems|
          ensures AgreeAt(obj[name].elems[k], ReadLeaves(obj[name].elems[k].fields, p[1..], opts).value,
                  Leaf(p[1..]), f, g)
        {
          ElementAgrees(obj, p, opts, f, g, k);
        }
        WalkEachAgrees(obj[name].elems, p[1..], opts, f, g);
      } else {
        FieldAgrees(obj, p, opts, f, g);
        WalkAgrees(obj[name].fields, p[1..], opts, f, g);
      }
    }
  }

  lemma FieldAgrees(obj: Fields, p: Path, opts: seq<Path>, f: LeafFn, g: LeafFn)
    requires |p| > 1 && !Missing(obj, p[0].name) && !p[0].isArray && obj[p[0].name].Obj?
    requires ReadLeaves(obj, p, opts).Ok? && AgreeAt(Obj(obj), ReadLeaves(obj, p, opts).value, Leaf(p), f, g)
    ensures AgreeAt(obj[p[0].name], ReadLeaves(obj[p[0].name].fields, p[1..], opts).value, Leaf(p[1..]), f, g)
  {
    var hops, inner := [Key(p[0].name)], ReadLeaves(obj[p[0].name].fields, p[1..], opts).value;
    forall l | l in inner ensures At(Obj(obj), hops + l) == At(obj[p[0].name], l)
        && hops + l in ReadLeaves(obj, p, opts).value {
      assert (hops + l)[1..] == l;
      InBelow(hops, inner, l);
    }
  }

  lemma ElementAgrees(obj: Fields, p: Path, opts: seq<Path>, f: LeafFn, g: LeafFn, k: nat)
    requires |p| > 1 && !Missing(obj, p[0].name) && p[0].isArray && obj[p[0].name].Arr? && k < |obj[p[0].name].elems|
    requires ReadLeaves(obj, p, opts).Ok? && AgreeAt(Obj(obj), ReadLeaves(obj, p, opts).value, Leaf(p), f, g)
    ensures obj[p[0].name].elems[k].Obj? && ReadLeaves(obj[p[0].name].elems[k].fields, p[1..], opts).Ok?
    ensures AgreeAt(obj[p[0].name].elems[k], ReadLeaves(obj[p[0].name].elems[k].fields, p[1..], opts).value,
            Leaf(p[1..]), f, g)
  {
    var name, es := p[0].name, obj[p[0].name].elems;
    ReadLeavesFromMembers(es, 0, name, p[1..], opts);
    forall l | l in ReadLeaves(es[k].fields, p[1..], opts).value
      ensures At(Obj(obj), [Key(name), Index(k)] + l) == At(es[k], l)
      ensures [Key(name), Index(k)] + l in ReadLeaves(obj, p, opts).value
    {
      ElementAt(obj, name, k, l);
    }
  }

  lemma {:induction false} WalkEachAgrees(elems: seq<Json>, p: Path, opts: seq<Path>, f: LeafFn, g: LeafFn)
    requires forall k :: 0 <= k < |elems| ==>
               && elems[k].Obj? && ReadLeaves(elems[k].fields, p, opts).Ok?
               && AgreeAt(elems[k], ReadLeaves(elems[k].fields, p, opts).value, Leaf(p), f, g)
    ensures WalkEach(elems, p, opts, f) == WalkEach(elems, p, opts, g)
    decreases |p|, 1 + |elems|
  {
    if elems != [] {
      WalkAgrees(elems[0].fields, p, opts, f, g);
      WalkEachAgrees(elems[1..], p, opts, f, g);
    }
  }

  // --- one walk after another on the same path ---

  function Then(f: LeafFn, g: LeafFn): LeafFn {
    (m: Fields, leaf: string) =>
      match f(m, leaf)
      case Ok(mid) => g(mid, leaf)
      case Fail(e) => Fail(e)
  }

  lemma {:induction false} WalkComposes(obj: Fields, p: Path, opts: seq<Path>, f: LeafFn, g: LeafFn)
    requires Walk(obj, p, opts, f).Ok?
    ensures Walk(Walk(obj, p, opts, f).value, p, opts, g) == Walk(obj, p, opts, Then(f, g))
    decreases |p|, 0
  {
    if |p| > 1 && !Missing(obj, p[0].name) {
      var name := p[0].name;
      var mid := Walk(obj, p, opts, f).value;
      if p[0].isArray {
        WalkEachComposes(obj[name].elems, p[1..], opts, f, g);
        var r := WalkEach(mid[name].elems, p[1..], opts, g);
        if r.Ok? { assert mid[name := Arr(r.value)] == obj[name := Arr(r.value)]; }
      } else {
        WalkComposes(obj[name].fields, p[1..], opts, f, g);
        var r := Walk(mid[name].fields, p[1..], opts, g);
        if r.Ok? { assert mid[name := Obj(r.value)] == obj[name := Obj(r.value)]; }
      }
    }
  }

  lemma {:induction false} WalkEachComposes(elems: seq<Json>, p: Path, opts: seq<Path>, f: LeafFn, g: LeafFn)
    requires WalkEach(elems, p, opts, f).Ok?
    ensures WalkEach(WalkEach(elems, p, opts, f).value, p, opts, g) == WalkEach(elems, p, opts, Then(f, g))
    decreases |p|, 1 + |elems|
  {
    if elems != [] {
      WalkComposes(elems[0].fields, p, opts, f, g);
      WalkEachComposes(elems[1..], p, opts, f, g);
      assert WalkEach(elems, p, opts, f).value[1..] == WalkEach(elems[1..], p, opts, f).value;
    }
  }

  function Keep(m: Fields, leaf: string): Result<Fields> {
    Ok(m)
  }

  lemma {:induction false} WalkKeeps(obj: Fields, p: Path, opts: seq<Path>)
    requires ReadLeaves(obj, p, opts).Ok?
    ensures Walk(obj, p, opts, Keep) == Ok(obj)
    decreases |p|, 0
  {
    if |p| > 1 && !Missing(obj, p[0].name) {
      var name := p[0].name;
      if p[0].isArray {
        ReadLeavesFromMembers(obj[name].elems, 0, name, p[1..], opts);
        WalkEachKeeps(obj[name].elems, p[1..], opts);
        assert obj[name := Arr(obj[name].elems)] == obj;
      } else {
        WalkKeeps(obj[name].fields, p[1..], opts);
        assert obj[name := Obj(obj[name].fields)] == obj;
      }
    }
  }

  lemma {:induction false} WalkEachKeeps(elems: seq<Json>, p: Path, opts: seq<Path>)
    requires forall k :: 0 <= k < |elems| ==> elems[k].Obj? && ReadLeaves(elems[k].fields, p, opts).Ok?
    ensures WalkEach(elems, p, opts, Keep) == Ok(elems)
    decreases |p|, 1 + |elems|
  {
    if elems != [] {
      WalkKeeps(elems[0].fields, p, opts);
      WalkEachKeeps(elems[1..], p, opts);
      assert [elems[0]] + elems[1..] == elems;
    }
  }

  // At pos the second verb undoes the first.
  ghost predicate ComesBack(j: Json, pos: Position, leaf: string, f: LeafFn, g: LeafFn) {
    At(j, pos).Some? && At(j, pos).value.Obj?
        && Then(f, g)(At(j, pos).value.fields, leaf) == Ok(At(j, pos).value.fields)
  }

  // A second walk restores the object exactly when its verb undoes the first at every leaf parent.
  lemma WalkBackExactly(obj: Fields, p: Path, opts: seq<Path>, f: LeafFn, g: LeafFn)
    requires Walk(obj, p, opts, f).Ok? && ReadLeaves(obj, p, opts).Ok?
    ensures Walk(Walk(obj, p, opts, f).value, p, opts, g) == Ok(obj) <==>
              forall pos :: pos in ReadLeaves(obj, p, opts).value ==> ComesBack(Obj(obj), pos, Leaf(p), f, g)
  {
    WalkComposes(obj, p, opts, f, g);
    WalkRewritesExactly(obj, p, opts, Then(f, g));
    if forall pos :: pos in ReadLeaves(obj, p, opts).value ==> ComesBack(Obj(obj), pos, Leaf(p), f, g) {
      WalkAgrees(obj, p, opts, Then(f, g), Keep);
      WalkKeeps(obj, p, opts);
    }
  }

  lemma ObjectRewritten(obj: Fields, r: Fields, name: string, inner: seq<Position>, leaf: string, f: LeafFn)
    requires name in obj && name in r && r == obj[name := r[name]]
    requires RewrittenExactly(obj[name], r[name], inner, leaf, f)
    ensures RewrittenExactly(Obj(obj), Obj(r), Below([Key(name)], inner), leaf, f)
  {
    var leaves := Below([Key(name)], inner);
    forall pos | pos in leaves ensures Rewritten(Obj(obj), Obj(r), pos, leaf, f) {
      var n :| 0 <= n < |inner| && pos == [Key(name)] + inner[n];
      assert inner[n] in inner && pos[1..] == inner[n];
    }
    forall pos: Position | forall l :: l in leaves ==> !Comparable(l, pos)
      ensures At(Obj(r), pos) == At(Obj(obj), pos)
    {
      if pos == [] || pos[0] == Key(name) {
        var rest := if pos == [] then [] else pos[1..];
        forall l | l in inner ensures !Comparable(l, rest) {
          var n :| 0 <= n < |inner| && inner[n] == l;
          assert leaves[n] == [Key(name)] + l;
          assert leaves[n] in leaves;
          assert pos == [] || pos == [Key(name)] + rest;
        }
        assert At(r[name], rest) == At(obj[name], rest);
        if pos == [] {
          assert r == obj;
        }
      }
    }
  }

  // Element k of an iterated array, rewritten at its own leaves.
  ghost predicate ElementsRewritten(es: seq<Json>, rs: seq<Json>, p: Path, opts: seq<Path>, f: LeafFn)
    requires |p| > 0
  {
    && |es| == |rs|
    && forall k :: 0 <= k < |es| ==>
         && es[k].Obj? && ReadLeaves(es[k].fields, p, opts).Ok?
         && RewrittenExactly(es[k], rs[k], ReadLeaves(es[k].fields, p, opts).value, p[|p| - 1].name, f)
  }

  lemma ElementLeafRewritten(obj: Fields, r: Fields, name: string, k: nat, pos: Position, leaf: string, f: LeafFn)
    requires name in obj && name in r && obj[name].Arr? && r[name].Arr? && k < |obj[name].elems| == |r[name].elems|
    requires Rewritten(obj[name].elems[k], r[name].elems[k], pos, leaf, f)
    ensures Rewritten(Obj(obj), Obj(r), [Key(name), Index(k)] + pos, leaf, f)
  {
    ElementAt(obj, name, k, pos);
    ElementAt(r, name, k, pos);
  }

  lemma ArrayLeafRewritten(obj: Fields, r: Fields, name: string, p: Path, opts: seq<Path>, f: LeafFn, pos: Position)
    requires name in obj && name in r && obj[name].Arr? && r[name].Arr? && |p| > 0
    requires ElementsRewritten(obj[name].elems, r[name].elems, p, opts, f)
    requires ReadLeavesFrom(obj[name].elems, 0, name, p, opts).Ok?
    requires pos in ReadLeavesFrom(obj[name].elems, 0, name, p, opts).value
    ensures Rewritten(Obj(obj), Obj(r), pos, p[|p| - 1].name, f)
  {
    var es := obj[name].elems;
    var k, l := ArrayLeaf(es, name, p, opts, pos);
    ElementLeafRewritten(obj, r, name, k, l, p[|p| - 1].name, f);
  }

  // Which element a leaf parent of an array lies in, and where in it.
  lemma ArrayLeaf(es: seq<Json>, name: string, p: Path, opts: seq<Path>, pos: Position) returns (k: nat, l: Position)
    requires ReadLeavesFrom(es, 0, name, p, opts).Ok? && pos in ReadLeavesFrom(es, 0, name, p, opts).value
    ensures k < |es| && es[k].Obj? && ReadLeaves(es[k].fields, p, opts).Ok?
    ensures l in ReadLeaves(es[k].fields, p, opts).value && pos == [Key(name), Index(k)] + l
  {
    ReadLeavesFromMembers(es, 0, name, p, opts);
    k :| 0 <= k < |es| && pos in Below([Key(name), Index(k)], ReadLeaves(es[k].fields, p, opts).value);
    l := BelowMember([Key(name), Index(k)], ReadLeaves(es[k].fields, p, opts).value, pos);
  }

  lemma ArrayFrame(obj: Fields, r: Fields, name: string, p: Path, opts: seq<Path>, f: LeafFn, pos: Position)
    requires name in obj && name in r && r == obj[name := r[name]] && obj[name].Arr? && r[name].Arr? && |p| > 0
    requires ElementsRewritten(obj[name].elems, r[name].elems, p, opts, f)
    requires ReadLeavesFrom(obj[name].elems, 0, name, p, opts).Ok?
    requires forall l :: l in ReadLeavesFrom(obj[name].elems, 0, name, p, opts).value ==> !Comparable(l, pos)
    ensures At(Obj(r), pos) == At(Obj(obj), pos)
  {
    var es, rs := obj[name].elems, r[name].elems;
    var leaves := ReadLeavesFrom(es, 0, name, p, opts).value;
    ReadLeavesFromMembers(es, 0, name, p, opts);
    if |pos| >= 2 && pos[0] == Key(name) && pos[1].Index? && pos[1].i < |es| {
      var k, rest := pos[1].i, pos[2..];
      assert pos == [Key(name), Index(k)] + rest;
      ElementAt(obj, name, k, rest);
      ElementAt(r, name, k, rest);
      ElementUntouched(es[k], rs[k], k, name, p, opts, f, leaves, pos, rest);
    } else if |pos| < 2 && (pos == [] || pos[0] == Key(name)) {
      forall k | 0 <= k < |es| ensures es[k] == rs[k] {
        ElementUntouched(es[k], rs[k], k, name, p, opts, f, leaves, pos, []);
      }
      assert es == rs;
      assert r == obj;
    }
  }

  lemma ArrayRewritten(obj: Fields, r: Fields, name: string, p: Path, opts: seq<Path>, f: LeafFn)
    requires name in obj && name in r && r == obj[name := r[name]] && obj[name].Arr? && r[name].Arr? && |p| > 0
    requires ElementsRewritten(obj[name].elems, r[name].elems, p, opts, f)
    requires ReadLeavesFrom(obj[name].elems, 0, name, p, opts).Ok?
    ensures RewrittenExactly(Obj(obj), Obj(r), ReadLeavesFrom(obj[name].elems, 0, name, p, opts).value,
            p[|p| - 1].name, f)
  {
    var leaves := ReadLeavesFrom(obj[name].elems, 0, name, p, opts).value;
    forall pos | pos in leaves ensures Rewritten(Obj(obj), Obj(r), pos, p[|p| - 1].name, f) {
      ArrayLeafRewritten(obj, r, name, p, opts, f, pos);
    }
    forall pos: Position | forall l :: l in leaves ==> !Comparable(l, pos)
      ensures At(Obj(r), pos) == At(Obj(obj), pos)
    {
      ArrayFrame(obj, r, name, p, opts, f, pos);
    }
  }

  lemma ElementAt(obj: Fields, name: string, k: nat, pos: Position)
    requires name in obj && obj[name].Arr? && k < |obj[name].elems|
    ensures At(Obj(obj), [Key(name), Index(k)] + pos) == At(obj[name].elems[k], pos)
  {
    var full := [Key(name), Index(k)] + pos;
    assert full[1..] == [Index(k)] + pos && full[1..][1..] == pos;
  }

  lemma ElementUntouched(e: Json, e': Json, k: nat, name: string, p: Path, opts: seq<Path>, f: LeafFn,
      leaves: seq<Position>, pos: Position, rest: Position)
    requires |p| > 0 && e.Obj? && ReadLeaves(e.fields, p, opts).Ok?
    requires RewrittenExactly(e, e', ReadLeaves(e.fields, p, opts).value, p[|p| - 1].name, f)
    requires forall l :: l in ReadLeaves(e.fields, p, opts).value ==> [Key(name), Index(k)] + l in leaves
    requires forall l :: l in leaves ==> !Comparable(l, pos)
    requires pos == [Key(name), Index(k)] + rest || (rest == [] && pos <= [Key(name)])
    ensures At(e', rest) == At(e, rest)
  {
    forall l | l in ReadLeaves(e.fields, p, opts).value ensures !Comparable(l, rest) {
      assert [Key(name), Index(k)] + l in leaves;
    }
  }
}
