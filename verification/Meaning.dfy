/**
 What an op list means, told by places in the body and without the interpreter: what each verb makes
 of the object that holds its leaf, and that nothing else moves. `ApplyExactly` says that a call
 computes exactly this, and `ApplyFails` that it fails for no other reason.
 */
module Meaning {
  import opened Json
  import opened Transform
  import opened WalkLaws
  import opened CoerceLaws
  import opened Places

  // --- what a verb makes of the object that holds its leaf ---

  // s is the spelling of the truth value b.
  predicate Spells(s: string, b: bool) {
    (b && s == "true") || (!b && s == "false")
  }

  // Coerce to a type relates a value to itself, to its text, or to what the text stands for.
  predicate CoercedTo(lib: Numerics, v: Json, w: Json, target: string) {
    OfType(w, target) &&
    match (v, w)
    case (Number(x), Str(s)) => s == lib.format(x)
    case (Bool(b), Str(s)) => Spells(s, b)
    case (Str(s), Number(x)) => lib.parse(s) == Some(x)
    case (Str(s), Bool(b)) => Spells(s, b)
    case _ => v == w
  }

  lemma CoerceValueExactly(lib: Numerics, v: Json, w: Json, target: string)
    ensures CoerceValue(lib, v, target) == Ok(w) <==> CoercedTo(lib, v, w, target)
  {
    assert "true" != "false";
  }

  // m' is m with the value of one leaf moved to another name.
  ghost predicate Moved(m: Fields, m': Fields, leaf: string, to: string) {
    && leaf in m && to !in m && m'.Keys == m.Keys - {leaf} + {to} && m'[to] == m[leaf]
    && forall k :: k in m && k != leaf ==> m'[k] == m[k]
  }

  // m' is m with another value, or a first one, at one leaf.
  ghost predicate SetAt(m: Fields, m': Fields, leaf: string) {
    m'.Keys == m.Keys + {leaf} && forall k :: k in m && k != leaf ==> m'[k] == m[k]
  }

  ghost predicate Becomes(lib: Numerics, ops: seq<Op>, i: nat, m: Fields, m': Fields)
    requires i < |ops| && WellFormed(ops[i])
  {
    match ops[i]
    case Optionalize(_) => m' == m
    case Rename(from, to) => if Leaf(from) in m then Moved(m, m', Leaf(from), Leaf(to))
        else Excused(ops, i, from) && m' == m
    case Default(field, v) => SetAt(m, m', Leaf(field)) &&
      m'[Leaf(field)] == if Vacant(m, Leaf(field)) then v else m[Leaf(field)]
    case Coerce(field, target) =>
      if Leaf(field) in m
      then SetAt(m, m', Leaf(field)) && CoercedTo(lib, m[Leaf(field)], m'[Leaf(field)], target)
      else Excused(ops, i, field) && m' == m
  }

  // --- what an op makes of the body ---

  ghost predicate ReadMeans(lib: Numerics, ops: seq<Op>, i: nat, p: Path, before: Json, after: Json)
    requires i < |ops| && WellFormed(ops[i])
  {
    && p != []
    && (forall d, pos, e :: !ObstacleAt(before, p, d, pos, ops, i, e))
    && (forall pos :: LeafParent(before, p, pos) ==>
        ObjAt(after, pos) && Becomes(lib, ops, i, FieldsAt(before, pos), FieldsAt(after, pos)))
    && Untouched(before, after, iset l | LeafParent(before, p, l))
  }

  ghost predicate WriteMeans(lib: Numerics, ops: seq<Op>, i: nat, p: Path, before: Json, after: Json)
    requires i < |ops| && WellFormed(ops[i])
  {
    && p != []
    && (forall d, pos, e :: !WriteObstacleAt(before, p, d, pos, e))
    && (forall pos :: WriteParent(before, p, pos) ==>
        ObjAt(after, pos) && Becomes(lib, ops, i, FieldsOr(before, pos), FieldsAt(after, pos)))
    && Untouched(before, after, iset l | WriteParent(before, p, l))
  }

  ghost predicate Means(lib: Numerics, ops: seq<Op>, i: nat, before: Json, after: Json)
    requires i < |ops| && WellFormed(ops[i])
  {
    match ops[i]
    case Optionalize(_) => after == before
    case Rename(from, _) => ReadMeans(lib, ops, i, from, before, after)
    case Default(field, _) => WriteMeans(lib, ops, i, field, before, after)
    case Coerce(field, _) => ReadMeans(lib, ops, i, field, before, after)
  }

  // --- the ops ---

  lemma BecomesOneThing(lib: Numerics, ops: seq<Op>, i: nat, m: Fields, m': Fields, m'': Fields)
    requires i < |ops| && WellFormed(ops[i])
    requires Becomes(lib, ops, i, m, m') && Becomes(lib, ops, i, m, m'')
    ensures m' == m''
  {
    if ops[i].Coerce? && Leaf(ops[i].field) in m {
      var leaf := Leaf(ops[i].field);
      CoerceValueExactly(lib, m[leaf], m'[leaf], ops[i].target);
      CoerceValueExactly(lib, m[leaf], m''[leaf], ops[i].target);
    }
  }

  lemma ReadMeansOneThing(lib: Numerics, ops: seq<Op>, i: nat, p: Path, before: Json, a: Json, b: Json)
    requires i < |ops| && WellFormed(ops[i])
    requires ReadMeans(lib, ops, i, p, before, a) && ReadMeans(lib, ops, i, p, before, b)
    ensures a == b
  {
    var leaves := iset l | LeafParent(before, p, l);
    forall l | l in leaves ensures ObjAt(a, l) && At(a, l) == At(b, l) {
      BecomesOneThing(lib, ops, i, FieldsAt(before, l), FieldsAt(a, l), FieldsAt(b, l));
    }
    Determined(before, a, b, leaves);
  }

  lemma WriteMeansOneThing(lib: Numerics, ops: seq<Op>, i: nat, p: Path, before: Json, a: Json, b: Json)
    requires i < |ops| && WellFormed(ops[i])
    requires WriteMeans(lib, ops, i, p, before, a) && WriteMeans(lib, ops, i, p, before, b)
    ensures a == b
  {
    var leaves := iset l | WriteParent(before, p, l);
    forall l | l in leaves ensures ObjAt(a, l) && At(a, l) == At(b, l) {
      BecomesOneThing(lib, ops, i, FieldsOr(before, l), FieldsAt(a, l), FieldsAt(b, l));
    }
    Determined(before, a, b, leaves);
  }

  lemma MeansOneThing(lib: Numerics, ops: seq<Op>, i: nat, before: Json, a: Json, b: Json)
    requires i < |ops| && WellFormed(ops[i])
    requires Means(lib, ops, i, before, a) && Means(lib, ops, i, before, b)
    ensures a == b
  {
    match ops[i]
    case Optionalize(_) =>
    case Default(field, _) => WriteMeansOneThing(lib, ops, i, field, before, a, b);
    case Rename(from, _) => ReadMeansOneThing(lib, ops, i, from, before, a, b);
    case Coerce(field, _) => ReadMeansOneThing(lib, ops, i, field, before, a, b);
  }

  // What rename and coerce hand to the walker.
  function Verb(lib: Numerics, op: Op, opts: seq<Path>): LeafFn
    requires WellFormed(op) && (op.Rename? || op.Coerce?)
  {
    if op.Rename? then RenameLeaf(op.to[|op.to| - 1].name, Covers(opts, op.from))
    else CoerceLeaf(lib, op.target, Covers(opts, op.field))
  }

  function Site(op: Op): Path {
    if op.Rename? then op.from else op.field
  }

  lemma VerbExactly(lib: Numerics, ops: seq<Op>, i: nat, opts: seq<Path>, m: Fields, m': Fields)
    requires i < |ops| && WellFormed(ops[i]) && (ops[i].Rename? || ops[i].Coerce?) && Collected(ops, i, opts)
    ensures Verb(lib, ops[i], opts)(m, Leaf(Site(ops[i]))) == Ok(m') <==> Becomes(lib, ops, i, m, m')
  {
    var leaf := Leaf(Site(ops[i]));
    CoversExactly(ops, i, opts, Site(ops[i]));
    if ops[i].Rename? {
      var to := Leaf(ops[i].to);
      if leaf in m && to !in m && Moved(m, m', leaf, to) { assert m' == (m - {leaf})[to := m[leaf]]; }
    } else if leaf in m && leaf in m' {
      CoerceValueExactly(lib, m[leaf], m'[leaf], ops[i].target);
      if SetAt(m, m', leaf) { assert m' == m[leaf := m'[leaf]]; }
    }
  }

  lemma ReadStep(lib: Numerics, ops: seq<Op>, i: nat, opts: seq<Path>, obj: Fields, after: Fields)
    requires i < |ops| && WellFormed(ops[i]) && (ops[i].Rename? || ops[i].Coerce?) && Collected(ops, i, opts)
    requires Walk(obj, Site(ops[i]), opts, Verb(lib, ops[i], opts)) == Ok(after)
    ensures ReadMeans(lib, ops, i, Site(ops[i]), Obj(obj), Obj(after))
  {
    var p, f := Site(ops[i]), Verb(lib, ops[i], opts);
    WalkRewritesExactly(obj, p, opts, f);
    forall d, pos, e ensures !ObstacleAt(Obj(obj), p, d, pos, ops, i, e) {
      Unobstructed(obj, p, opts, ops, i, d, pos, e);
    }
    forall pos ensures pos in ReadLeaves(obj, p, opts).value <==> LeafParent(Obj(obj), p, pos) {
      ListedExactly(obj, p, opts, pos);
    }
    forall pos | LeafParent(Obj(obj), p, pos)
      ensures ObjAt(Obj(after), pos) && Becomes(lib, ops, i, FieldsAt(Obj(obj), pos), FieldsAt(Obj(after), pos))
    {
      assert Rewritten(Obj(obj), Obj(after), pos, Leaf(p), f);
      VerbExactly(lib, ops, i, opts, FieldsAt(Obj(obj), pos), FieldsAt(Obj(after), pos));
    }
  }

  lemma ReadStepRuns(lib: Numerics, ops: seq<Op>, i: nat, opts: seq<Path>, obj: Fields, after: Json)
    requires i < |ops| && WellFormed(ops[i]) && (ops[i].Rename? || ops[i].Coerce?) && Collected(ops, i, opts)
    requires ReadMeans(lib, ops, i, Site(ops[i]), Obj(obj), after)
    ensures Walk(obj, Site(ops[i]), opts, Verb(lib, ops[i], opts)).Ok?
  {
    var p, f := Site(ops[i]), Verb(lib, ops[i], opts);
    if ReadLeaves(obj, p, opts).Fail? {
      var d, pos := Obstructed(obj, p, opts, ops, i);
    }
    forall pos | pos in ReadLeaves(obj, p, opts).value ensures Accepts(Obj(obj), pos, Leaf(p), f) {
      ListedExactly(obj, p, opts, pos);
      VerbExactly(lib, ops, i, opts, FieldsAt(Obj(obj), pos), FieldsAt(after, pos));
    }
    WalkSucceedsExactly(obj, p, opts, f);
  }

  lemma WriteStep(lib: Numerics, ops: seq<Op>, i: nat, obj: Fields, after: Fields)
    requires i < |ops| && WellFormed(ops[i]) && ops[i].Default?
    requires WalkEnsure(obj, ops[i].field, DefaultLeaf(ops[i].value)) == Ok(after)
    ensures WriteMeans(lib, ops, i, ops[i].field, Obj(obj), Obj(after))
  {
    var p, v := ops[i].field, ops[i].value;
    forall d, pos, e ensures !WriteObstacleAt(Obj(obj), p, d, pos, e) {
      WriteUnobstructed(obj, p, v, d, pos, e);
    }
    forall pos | WriteParent(Obj(obj), p, pos)
      ensures ObjAt(Obj(after), pos) && Becomes(lib, ops, i, FieldsOr(Obj(obj), pos), FieldsAt(Obj(after), pos))
    {
      WriteAt(obj, p, v, pos);
    }
    var leaves := iset l | WriteParent(Obj(obj), p, l);
    forall pos: Position | forall l :: l in leaves ==> !Comparable(l, pos)
      ensures At(Obj(after), pos) == At(Obj(obj), pos)
    {
      assert Apart(Obj(obj), p, pos) by {
        forall l | WriteParent(Obj(obj), p, l) ensures !Comparable(l, pos) { assert l in leaves; }
      }
      WriteFrame(obj, p, v, pos);
    }
  }

  // One step of the interpreter gives `after` exactly when `after` is what the op means.
  lemma StepExactly(lib: Numerics, ops: seq<Op>, i: nat, opts: seq<Path>, obj: Fields, after: Fields)
    requires i < |ops| && WellFormed(ops[i]) && Collected(ops, i, opts)
    ensures Step(lib, ops[i], opts, obj) == Ok(after) <==> Means(lib, ops, i, Obj(obj), Obj(after))
  {
    StepMeans(lib, ops, i, opts, obj);
    if Means(lib, ops, i, Obj(obj), Obj(after)) {
      if ops[i].Default? {
        var p, v := ops[i].field, ops[i].value;
        if WalkEnsure(obj, p, DefaultLeaf(v)).Fail? { var d, pos := WriteObstructed(obj, p, v); }
      } else if !ops[i].Optionalize? {
        ReadStepRuns(lib, ops, i, opts, obj, Obj(after));
      }
      MeansOneThing(lib, ops, i, Obj(obj), Obj(Step(lib, ops[i], opts, obj).value), Obj(after));
    }
  }

  lemma StepMeans(lib: Numerics, ops: seq<Op>, i: nat, opts: seq<Path>, obj: Fields)
    requires i < |ops| && WellFormed(ops[i]) && Collected(ops, i, opts)
    ensures var r := Step(lib, ops[i], opts, obj); r.Ok? ==> Means(lib, ops, i, Obj(obj), Obj(r.value))
  {
    var r := Step(lib, ops[i], opts, obj);
    if r.Ok? {
      if ops[i].Default? { WriteStep(lib, ops, i, obj, r.value); }
      else if !ops[i].Optionalize? { ReadStep(lib, ops, i, opts, obj, r.value); }
    }
  }

  // --- how an op fails ---

  // Why a verb refuses the object that should hold its leaf. Default never does.
  ghost predicate RefusedAs(lib: Numerics, ops: seq<Op>, i: nat, m: Fields, e: Failure)
    requires i < |ops| && WellFormed(ops[i])
  {
    match ops[i]
    case Rename(from, to) =>
      if Leaf(from) in m then Leaf(to) in m && e == TargetPresent else !Excused(ops, i, from) && e == Absent
    case Coerce(field, target) =>
      if Leaf(field) in m
      then e == NotCoercible && forall w :: !CoercedTo(lib, m[Leaf(field)], w, target)
      else !Excused(ops, i, field) && e == Absent
    case _ => false
  }

  // An empty path, an obstacle of that kind on the way, or a leaf parent refused for that reason.
  ghost predicate StepFailsAs(lib: Numerics, ops: seq<Op>, i: nat, m: Fields, e: Failure)
    requires i < |ops| && WellFormed(ops[i])
  {
    var j, p := Obj(m), Site(ops[i]);
    && !ops[i].Optionalize?
    && (|| (p == [] && e == EmptyPath)
        || (ops[i].Default? && exists d, pos :: WriteObstacleAt(j, p, d, pos, e))
        || (!ops[i].Default? && exists d, pos :: ObstacleAt(j, p, d, pos, ops, i, e))
        || (exists pos :: LeafParent(j, p, pos) && RefusedAs(lib, ops, i, FieldsAt(j, pos), e)))
  }

  lemma VerbRefuses(lib: Numerics, ops: seq<Op>, i: nat, opts: seq<Path>, m: Fields, e: Failure)
    requires i < |ops| && WellFormed(ops[i]) && (ops[i].Rename? || ops[i].Coerce?) && Collected(ops, i, opts)
    ensures Verb(lib, ops[i], opts)(m, Leaf(Site(ops[i]))) == Fail(e) <==> RefusedAs(lib, ops, i, m, e)
  {
    var leaf := Leaf(Site(ops[i]));
    CoversExactly(ops, i, opts, Site(ops[i]));
    if ops[i].Coerce? && leaf in m {
      forall w ensures CoerceValue(lib, m[leaf], ops[i].target) == Ok(w) <==>
          CoercedTo(lib, m[leaf], w, ops[i].target) {
        CoerceValueExactly(lib, m[leaf], w, ops[i].target);
      }
      var r := CoerceValue(lib, m[leaf], ops[i].target);
      if r.Ok? { assert CoercedTo(lib, m[leaf], r.value, ops[i].target); }
    }
  }

  lemma {:induction false} ElementStops(elems: seq<Json>, p: Path, opts: seq<Path>, f: LeafFn) returns (n: nat)
    requires WalkEach(elems, p, opts, f).Fail?
    ensures n < |elems|
    ensures var e := WalkEach(elems, p, opts, f).reason;
            if elems[n].Obj? then Walk(elems[n].fields, p, opts, f) == Fail(e) else e == WrongShape
    decreases |elems|
  {
    if !elems[0].Obj? || Walk(elems[0].fields, p, opts, f).Fail? {
      n := 0;
    } else {
      n := ElementStops(elems[1..], p, opts, f);
      n := n + 1;
    }
  }

  // A walk that fails met an obstacle of that kind, or its verb refused a leaf parent for that reason.
  lemma {:induction false} Stopped(obj: Fields, p: Path, opts: seq<Path>, f: LeafFn, ops: seq<Op>, i: nat)
    returns (d: nat, pos: Position)
    requires Collected(ops, i, opts) && p != [] && Walk(obj, p, opts, f).Fail?
    ensures var e := Walk(obj, p, opts, f).reason;
            || ObstacleAt(Obj(obj), p, d, pos, ops, i, e)
            || (d == |p| - 1 && LeafParent(Obj(obj), p, pos) && f(FieldsAt(Obj(obj), pos), Leaf(p)) == Fail(e))
    decreases |p|
  {
    var name := p[0].name;
    CoversExactly(ops, i, opts, p);
    d, pos := 0, [];
    if |p| > 1 && !Missing(obj, name) {
      if p[0].isArray && obj[name].Arr? {
        var n := ElementStops(obj[name].elems, p[1..], opts, f);
        if obj[name].elems[n].Obj? {
          d, pos := Stopped(obj[name].elems[n].fields, p[1..], opts, f, ops, i);
          ElementAt(obj, name, n, pos);
          d, pos := Deeper(p, d, [Key(name), Index(n)], pos);
        }
      } else if !p[0].isArray && obj[name].Obj? {
        d, pos := Stopped(obj[name].fields, p[1..], opts, f, ops, i);
        d, pos := Deeper(p, d, [Key(name)], pos);
      }
    }
  }

  lemma StepFails(lib: Numerics, ops: seq<Op>, i: nat, opts: seq<Path>, obj: Fields)
    requires i < |ops| && WellFormed(ops[i]) && Collected(ops, i, opts)
    ensures var r := Step(lib, ops[i], opts, obj); r.Fail? ==> StepFailsAs(lib, ops, i, obj, r.reason)
  {
    var r, p := Step(lib, ops[i], opts, obj), Site(ops[i]);
    if r.Fail? && p != [] {
      if ops[i].Default? {
        var d, pos := WriteObstructed(obj, p, ops[i].value);
      } else {
        var f := Verb(lib, ops[i], opts);
        var d, pos := Stopped(obj, p, opts, f, ops, i);
        if !ObstacleAt(Obj(obj), p, d, pos, ops, i, r.reason) {
          VerbRefuses(lib, ops, i, opts, FieldsAt(Obj(obj), pos), r.reason);
        }
      }
    }
  }

  // --- whole runs ---

  // Bodies a list passes through from its i-th op on: all of them when there is one more than ops left.
  ghost predicate Trace(lib: Numerics, ops: seq<Op>, i: nat, states: seq<Fields>)
    requires AllWellFormed(ops)
  {
    && 0 < |states| <= |ops| - i + 1
    && forall n :: 0 <= n < |states| - 1 ==> Means(lib, ops, i + n, Obj(states[n]), Obj(states[n + 1]))
  }

  // A run that succeeds passes through the bodies its ops mean; one that fails gets as far as the op
  // that stops it.
  ghost predicate Traced(lib: Numerics, ops: seq<Op>, i: nat, states: seq<Fields>, r: Result<Fields>)
    requires AllWellFormed(ops) && i <= |ops|
  {
    && Trace(lib, ops, i, states)
    && match r
       case Ok(out) => |states| == |ops| - i + 1 && out == states[|states| - 1]
       case Fail(e) => |states| <= |ops| - i && StepFailsAs(lib, ops, i + |states| - 1, states[|states| - 1], e)
  }

  lemma {:induction false} RunTraced(lib: Numerics, ops: seq<Op>, i: nat, opts: seq<Path>, obj: Fields)
    returns (states: seq<Fields>)
    requires AllWellFormed(ops) && i <= |ops| && Collected(ops, i, opts)
    ensures Traced(lib, ops, i, states, Run(lib, ops[i..], opts, obj)) && states[0] == obj
    decreases |ops| - i
  {
    states := [obj];
    if i < |ops| {
      StepFails(lib, ops, i, opts, obj);
      assert ops[i..][1..] == ops[i + 1..];
      StepMeans(lib, ops, i, opts, obj);
      CollectedNext(ops, i, opts);
      var next := Step(lib, ops[i], opts, obj);
      if next.Ok? {
        var rest := RunTraced(lib, ops, i + 1, opts + Tolerated(ops[i]), next.value);
        TraceExtended(lib, ops, i, obj, rest, Run(lib, ops[i + 1..], opts + Tolerated(ops[i]), next.value));
        states := [obj] + rest;
      }
    }
  }

  lemma TraceExtended(lib: Numerics, ops: seq<Op>, i: nat, obj: Fields, rest: seq<Fields>, r: Result<Fields>)
    requires AllWellFormed(ops) && i < |ops| && Traced(lib, ops, i + 1, rest, r)
    requires Means(lib, ops, i, Obj(obj), Obj(rest[0]))
    ensures Traced(lib, ops, i, [obj] + rest, r)
  {
    var states := [obj] + rest;
    forall n | 0 <= n < |states| - 1 ensures Means(lib, ops, i + n, Obj(states[n]), Obj(states[n + 1])) {
      if n > 0 { assert Means(lib, ops, i + 1 + (n - 1), Obj(rest[n - 1]), Obj(rest[n - 1 + 1])); }
    }
  }

  lemma {:induction false} TraceRuns(lib: Numerics, ops: seq<Op>, i: nat, opts: seq<Path>, states: seq<Fields>)
    requires AllWellFormed(ops) && i <= |ops| && Collected(ops, i, opts)
    requires Trace(lib, ops, i, states) && |states| == |ops| - i + 1
    ensures Run(lib, ops[i..], opts, states[0]) == Ok(states[|states| - 1])
    decreases |ops| - i
  {
    if i < |ops| {
      assert ops[i..][1..] == ops[i + 1..];
      assert Means(lib, ops, i + 0, Obj(states[0]), Obj(states[0 + 1]));
      StepExactly(lib, ops, i, opts, states[0], states[1]);
      CollectedNext(ops, i, opts);
      var rest := states[1..];
      forall n | 0 <= n < |rest| - 1 ensures Means(lib, ops, i + 1 + n, Obj(rest[n]), Obj(rest[n + 1])) {
        assert Means(lib, ops, i + (n + 1), Obj(states[n + 1]), Obj(states[n + 1 + 1]));
      }
      TraceRuns(lib, ops, i + 1, opts + Tolerated(ops[i]), rest);
    }
  }

  // What the encoder writes for a tree: the same tree, an injected integer as a number of its sign.
  ghost predicate Written(lib: Numerics, j: Json, out: Json)
    decreases j
  {
    match j
    case Number(x) => x.Finite? && out == j
    case Integer(n) => out == Number(Finite(n < 0, lib.round(if n < 0 then 0 - n else n)))
    case Arr(es) => out.Arr? && |out.elems| == |es| && forall i :: 0 <= i < |es| ==> Written(lib, es[i], out.elems[i])
    case Obj(m) => out.Obj? && out.fields.Keys == m.Keys && forall k :: k in m ==> Written(lib, m[k], out.fields[k])
    case _ => out == j
  }

  lemma {:induction false} WrittenExactly(lib: Numerics, j: Json, out: Json)
    ensures Encodable(j) && Reencode(lib, j) == out <==> Written(lib, j, out)
    decreases j
  {
    match j
    case Arr(es) =>
      if out.Arr? && |out.elems| == |es| {
        forall i | 0 <= i < |es|
          ensures Encodable(es[i]) && Reencode(lib, es[i]) == out.elems[i] <==> Written(lib, es[i], out.elems[i])
        {
          WrittenExactly(lib, es[i], out.elems[i]);
        }
        if Written(lib, j, out) { assert ReencodeAll(lib, es) == out.elems; }
      }
    case Obj(m) =>
      if out.Obj? && out.fields.Keys == m.Keys {
        forall k | k in m
          ensures Encodable(m[k]) && Reencode(lib, m[k]) == out.fields[k] <==> Written(lib, m[k], out.fields[k])
        {
          WrittenExactly(lib, m[k], out.fields[k]);
        }
        if Written(lib, j, out) { assert ReencodeFields(lib, m) == out.fields; }
      }
    case _ =>
  }

  // The whole meaning of a call.
  ghost predicate Yields(lib: Numerics, ops: seq<Op>, body: Json, out: Json)
    requires AllWellFormed(ops)
  {
    if ops == [] then out == body
    else body.Obj? && exists states ::
        && Trace(lib, ops, 0, states) && |states| == |ops| + 1 && states[0] == body.fields
        && Written(lib, Obj(states[|states| - 1]), out)
  }

  // A call answers `out` exactly when `out` is what the list means for the body.
  lemma ApplyExactly(lib: Numerics, ops: seq<Op>, body: Json, out: Json)
    requires AllWellFormed(ops)
    ensures Apply(lib, ops, body) == Ok(out) <==> Yields(lib, ops, body, out)
  {
    if ops != [] && body.Obj? {
      assert ops[0..] == ops;
      assert Collected(ops, 0, []);
      if Apply(lib, ops, body) == Ok(out) {
        var states := RunTraced(lib, ops, 0, [], body.fields);
        WrittenExactly(lib, Obj(states[|states| - 1]), out);
      }
      if Yields(lib, ops, body, out) {
        var states :| Trace(lib, ops, 0, states) && |states| == |ops| + 1 && states[0] == body.fields
          && Written(lib, Obj(states[|states| - 1]), out);
        TraceRuns(lib, ops, 0, [], states);
        WrittenExactly(lib, Obj(states[|states| - 1]), out);
      }
    }
  }

  ghost predicate Unwritable(lib: Numerics, j: Json) {
    forall out :: !Written(lib, j, out)
  }

  // Why a call fails: the body is no object, or an op of the list met a body it cannot change, or the
  // last body cannot be written.
  ghost predicate FailsAs(lib: Numerics, ops: seq<Op>, body: Json, e: Failure)
    requires AllWellFormed(ops)
  {
    && ops != []
    && if !body.Obj? then e == NotAnObject
       else exists states ::
         && Trace(lib, ops, 0, states) && states[0] == body.fields
         && if |states| <= |ops| then StepFailsAs(lib, ops, |states| - 1, states[|states| - 1], e)
            else e == NotEncodable && Unwritable(lib, Obj(states[|states| - 1]))
  }

  lemma ApplyFails(lib: Numerics, ops: seq<Op>, body: Json)
    requires AllWellFormed(ops) && Apply(lib, ops, body).Fail?
    ensures FailsAs(lib, ops, body, Apply(lib, ops, body).reason)
  {
    if body.Obj? {
      assert ops[0..] == ops;
      assert Collected(ops, 0, []);
      var states := RunTraced(lib, ops, 0, [], body.fields);
      if |states| > |ops| {
        var last := Obj(states[|states| - 1]);
        forall out ensures !Written(lib, last, out) { WrittenExactly(lib, last, out); }
      }
    }
  }

  // r is what the list means for the body, or fails for one of its reasons.
  ghost predicate Denotes(lib: Numerics, ops: seq<Op>, body: Json, r: Result<Json>)
    requires AllWellFormed(ops)
  {
    && (forall out :: r == Ok(out) <==> Yields(lib, ops, body, out))
    && (r.Fail? ==> FailsAs(lib, ops, body, r.reason))
  }

  lemma ApplyDenotes(lib: Numerics, ops: seq<Op>, body: Json)
    requires AllWellFormed(ops)
    ensures Denotes(lib, ops, body, Apply(lib, ops, body))
  {
    forall out ensures Apply(lib, ops, body) == Ok(out) <==> Yields(lib, ops, body, out) {
      ApplyExactly(lib, ops, body, out);
    }
    if Apply(lib, ops, body).Fail? { ApplyFails(lib, ops, body); }
  }

  // A list that only coerces one top-level field, on a body that holds it: the field is spelled anew
  // and the rest stays.
  lemma CoerceOneField(lib: Numerics, body: Fields, name: string, target: string, w: Json)
    requires Decoded(Obj(body)) && name in body && CoercedTo(lib, body[name], w, target) && Encodable(w)
    ensures Apply(lib, [Coerce([Segment(name, false)], target)], Obj(body)) == Ok(Obj(body[name := w]))
  {
    var op := Coerce([Segment(name, false)], target);
    CoerceValueExactly(lib, body[name], w, target);
    assert Step(lib, op, [], body) == Ok(body[name := w]);
    assert Run(lib, [op][1..], [] + Tolerated(op), body[name := w]) == Ok(body[name := w]);
    ReencodeIdentity(lib, Obj(body[name := w]));
  }

  // Both spellings, there and back.
  lemma CoerceSpells(lib: Numerics, name: string, b: bool)
    ensures var there, back := [Coerce([Segment(name, false)], "string")], [Coerce([Segment(name, false)], "bool")];
            var text := if b then "true" else "false";
            && Apply(lib, there, Obj(map[name := Bool(b)])) == Ok(Obj(map[name := Str(text)]))
            && Apply(lib, back, Obj(map[name := Str(text)])) == Ok(Obj(map[name := Bool(b)]))
  {
    var text := if b then "true" else "false";
    var m, n: Fields := map[name := Bool(b)], map[name := Str(text)];
    CoerceOneField(lib, m, name, "string", Str(text));
    CoerceOneField(lib, n, name, "bool", Bool(b));
    assert m[name := Str(text)] == n && n[name := Bool(b)] == m;
  }
}
