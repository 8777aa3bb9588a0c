/**
 Fusion of chain links: two op lists run in sequence, each with a fresh optionalize set and an
 encode and decode between them, against the one concatenated list.
 */
module FusionLaws {
  import opened Json
  import opened Transform
  import opened OptionalizeLaws
  import opened WalkLaws

  predicate DefaultsIntegerFree(ops: seq<Op>) {
    forall i | 0 <= i < |ops| :: ops[i].Default? ==> !ops[i].value.Integer?
  }

  predicate CoerceFree(ops: seq<Op>) {
    forall i | 0 <= i < |ops| :: !ops[i].Coerce?
  }

  // --- integers come only from defaults ---

  predicate Clean(m: Fields) {
    IntegerFree(Obj(m))
  }

  ghost predicate KeepsClean(f: LeafFn) {
    forall m: Fields, leaf: string :: Clean(m) && f(m, leaf).Ok? ==> Clean(f(m, leaf).value)
  }

  predicate CleanAll(elems: seq<Json>) {
    forall i | 0 <= i < |elems| :: IntegerFree(elems[i])
  }

  lemma {:induction false} WalkKeepsClean(obj: Fields, p: Path, opts: seq<Path>, f: LeafFn)
    requires Clean(obj) && KeepsClean(f) && Walk(obj, p, opts, f).Ok?
    ensures Clean(Walk(obj, p, opts, f).value)
    decreases |p|, 0
  {
    if |p| > 1 && !Missing(obj, p[0].name) {
      var v := obj[p[0].name];
      if p[0].isArray {
        assert IntegerFree(v);
        WalkEachKeepsClean(v.elems, p[1..], opts, f);
      } else {
        assert IntegerFree(v);
        WalkKeepsClean(v.fields, p[1..], opts, f);
      }
    }
  }

  lemma {:induction false} WalkEachKeepsClean(elems: seq<Json>, p: Path, opts: seq<Path>, f: LeafFn)
    requires CleanAll(elems) && KeepsClean(f) && WalkEach(elems, p, opts, f).Ok?
    ensures CleanAll(WalkEach(elems, p, opts, f).value)
    decreases |p|, 1 + |elems|
  {
    if elems != [] {
      assert IntegerFree(elems[0]);
      WalkKeepsClean(elems[0].fields, p, opts, f);
      WalkEachKeepsClean(elems[1..], p, opts, f);
    }
  }

  lemma {:induction false} WalkEnsureKeepsClean(obj: Fields, p: Path, f: LeafFn)
    requires Clean(obj) && KeepsClean(f) && WalkEnsure(obj, p, f).Ok?
    ensures Clean(WalkEnsure(obj, p, f).value)
    decreases |p|, 0
  {
    if |p| > 1 {
      var name := p[0].name;
      if Missing(obj, name) {
        WalkEnsureKeepsClean(map[], p[1..], f);
      } else if p[0].isArray {
        assert IntegerFree(obj[name]);
        WalkEnsureEachKeepsClean(obj[name].elems, p[1..], f);
      } else {
        assert IntegerFree(obj[name]);
        WalkEnsureKeepsClean(obj[name].fields, p[1..], f);
      }
    }
  }

  lemma {:induction false} WalkEnsureEachKeepsClean(elems: seq<Json>, p: Path, f: LeafFn)
    requires CleanAll(elems) && KeepsClean(f) && WalkEnsureEach(elems, p, f).Ok?
    ensures CleanAll(WalkEnsureEach(elems, p, f).value)
    decreases |p|, 1 + |elems|
  {
    if elems != [] {
      assert IntegerFree(elems[0]);
      WalkEnsureKeepsClean(elems[0].fields, p, f);
      WalkEnsureEachKeepsClean(elems[1..], p, f);
    }
  }

  lemma CoerceLeafKeepsClean(lib: Numerics, target: string, covered: bool)
    ensures KeepsClean(CoerceLeaf(lib, target, covered))
  {
    var f := CoerceLeaf(lib, target, covered);
    forall m: Fields, leaf: string | Clean(m) && f(m, leaf).Ok?
      ensures Clean(f(m, leaf).value)
    {
      if leaf in m {
        var v := CoerceValue(lib, m[leaf], target).value;
        assert IntegerFree(m[leaf]) && IntegerFree(v);
      }
    }
  }

  lemma StepKeepsClean(lib: Numerics, op: Op, opts: seq<Path>, obj: Fields)
    requires WellFormed(op) && (op.Default? ==> !op.value.Integer?)
    requires Clean(obj) && Step(lib, op, opts, obj).Ok?
    ensures Clean(Step(lib, op, opts, obj).value)
  {
    match op
    case Optionalize(_) =>
    case Rename(from, to) =>
      WalkKeepsClean(obj, from, opts, RenameLeaf(to[|to| - 1].name, Covers(opts, from)));
    case Default(field, v) =>
      assert IntegerFree(v);
      WalkEnsureKeepsClean(obj, field, DefaultLeaf(v));
    case Coerce(field, target) =>
      CoerceLeafKeepsClean(lib, target, Covers(opts, field));
      WalkKeepsClean(obj, field, opts, CoerceLeaf(lib, target, Covers(opts, field)));
  }

  lemma {:induction false} RunKeepsClean(lib: Numerics, ops: seq<Op>, opts: seq<Path>, obj: Fields)
    requires AllWellFormed(ops) && DefaultsIntegerFree(ops)
    requires Clean(obj) && Run(lib, ops, opts, obj).Ok?
    ensures Clean(Run(lib, ops, opts, obj).value)
    decreases |ops|
  {
    if ops != [] {
      StepKeepsClean(lib, ops[0], opts, obj);
      RunKeepsClean(lib, ops[1..], opts + Tolerated(ops[0]), Step(lib, ops[0], opts, obj).value);
    }
  }

  // --- verbs other than coerce cannot tell an injected integer from its re-encoded float ---

  ghost predicate Same(lib: Numerics, m: Fields, m': Fields) {
    ReencodeFields(lib, m) == ReencodeFields(lib, m')
  }

  ghost predicate SameOutcome(lib: Numerics, r: Result<Fields>, r': Result<Fields>) {
    match (r, r')
    case (Ok(m), Ok(m')) => Same(lib, m, m')
    case (Fail(e), Fail(e')) => e == e'
    case _ => false
  }

  ghost predicate SameOutcomes(lib: Numerics, r: Result<seq<Json>>, r': Result<seq<Json>>) {
    match (r, r')
    case (Ok(es), Ok(es')) => ReencodeAll(lib, es) == ReencodeAll(lib, es')
    case (Fail(e), Fail(e')) => e == e'
    case _ => false
  }

  ghost predicate Blind(lib: Numerics, f: LeafFn) {
    forall m: Fields, m': Fields, leaf: string {:trigger f(m, leaf), f(m', leaf)} ::
      Same(lib, m, m') ==> SameOutcome(lib, f(m, leaf), f(m', leaf))
  }

  lemma SameAt(lib: Numerics, m: Fields, m': Fields, name: string)
    requires Same(lib, m, m')
    ensures name in m <==> name in m'
    ensures name in m ==> Reencode(lib, m[name]) == Reencode(lib, m'[name])
  {
    assert name in m <==> name in ReencodeFields(lib, m);
    assert name in m' <==> name in ReencodeFields(lib, m');
    if name in m {
      assert ReencodeFields(lib, m)[name] == Reencode(lib, m[name]);
      assert ReencodeFields(lib, m')[name] == Reencode(lib, m'[name]);
    }
  }

  lemma SameIf(lib: Numerics, m: Fields, m': Fields)
    requires m.Keys == m'.Keys
    requires forall k :: k in m ==> Reencode(lib, m[k]) == Reencode(lib, m'[k])
    ensures Same(lib, m, m')
  {
    assert ReencodeFields(lib, m).Keys == m.Keys;
  }

  lemma SameUpdated(lib: Numerics, m: Fields, m': Fields, name: string, v: Json, v': Json)
    requires Same(lib, m, m') && Reencode(lib, v) == Reencode(lib, v')
    ensures Same(lib, m[name := v], m'[name := v'])
  {
    forall k ensures k in m <==> k in m' { SameAt(lib, m, m', k); }
    var n, n' := m[name := v], m'[name := v'];
    forall k | k in n ensures Reencode(lib, n[k]) == Reencode(lib, n'[k]) {
      if k != name { SameAt(lib, m, m', k); }
    }
    assert n.Keys == n'.Keys;
    SameIf(lib, n, n');
  }

  lemma SameRemoved(lib: Numerics, m: Fields, m': Fields, name: string)
    requires Same(lib, m, m')
    ensures Same(lib, m - {name}, m' - {name})
  {
    forall k ensures k in m <==> k in m' { SameAt(lib, m, m', k); }
    forall k | k in m - {name} ensures Reencode(lib, m[k]) == Reencode(lib, m'[k]) { SameAt(lib, m, m', k); }
    assert (m - {name}).Keys == (m' - {name}).Keys;
    SameIf(lib, m - {name}, m' - {name});
  }

  // The outcome below one field, put back in place.
  function InField(m: Fields, name: string, r: Result<Fields>): Result<Fields> {
    match r
    case Ok(sub) => Ok(m[name := Obj(sub)])
    case Fail(e) => Fail(e)
  }

  function InArray(m: Fields, name: string, r: Result<seq<Json>>): Result<Fields> {
    match r
    case Ok(es) => Ok(m[name := Arr(es)])
    case Fail(e) => Fail(e)
  }

  lemma SameInField(lib: Numerics, m: Fields, m': Fields, name: string, r: Result<Fields>, r': Result<Fields>)
    requires Same(lib, m, m') && SameOutcome(lib, r, r')
    ensures SameOutcome(lib, InField(m, name, r), InField(m', name, r'))
  {
    if r.Ok? { SameUpdated(lib, m, m', name, Obj(r.value), Obj(r'.value)); }
  }

  lemma SameInArray(lib: Numerics, m: Fields, m': Fields, name: string, r: Result<seq<Json>>, r': Result<seq<Json>>)
    requires Same(lib, m, m') && SameOutcomes(lib, r, r')
    ensures SameOutcome(lib, InArray(m, name, r), InArray(m', name, r'))
  {
    if r.Ok? { SameUpdated(lib, m, m', name, Arr(r.value), Arr(r'.value)); }
  }

  // Two fields with the same re-encoding are read alike by the walkers.
  lemma SameShape(lib: Numerics, m: Fields, m': Fields, name: string)
    requires Same(lib, m, m')
    ensures Missing(m, name) == Missing(m', name)
    ensures !Missing(m, name) ==> m[name].Arr? == m'[name].Arr? && m[name].Obj? == m'[name].Obj?
    ensures !Missing(m, name) && m[name].Arr? ==> ReencodeAll(lib, m[name].elems) == ReencodeAll(lib, m'[name].elems)
    ensures !Missing(m, name) && m[name].Obj? ==> Same(lib, m[name].fields, m'[name].fields)
  {
    SameAt(lib, m, m', name);
  }

  lemma {:induction false} WalkBlind(lib: Numerics, obj: Fields, obj': Fields, p: Path, opts: seq<Path>, f: LeafFn)
    requires Same(lib, obj, obj') && Blind(lib, f)
    ensures SameOutcome(lib, Walk(obj, p, opts, f), Walk(obj', p, opts, f))
    decreases |p|, 0
  {
    if |p| > 1 {
      var name := p[0].name;
      SameShape(lib, obj, obj', name);
      if !Missing(obj, name) {
        var v, v' := obj[name], obj'[name];
        if p[0].isArray && v.Arr? {
          WalkEachBlind(lib, v.elems, v'.elems, p[1..], opts, f);
          SameInArray(lib, obj, obj', name, WalkEach(v.elems, p[1..], opts, f), WalkEach(v'.elems, p[1..], opts, f));
        } else if !p[0].isArray && v.Obj? {
          WalkBlind(lib, v.fields, v'.fields, p[1..], opts, f);
          SameInField(lib, obj, obj', name, Walk(v.fields, p[1..], opts, f), Walk(v'.fields, p[1..], opts, f));
        }
      }
    }
  }

  lemma SameElements(lib: Numerics, es: seq<Json>, es': seq<Json>)
    requires ReencodeAll(lib, es) == ReencodeAll(lib, es')
    ensures |es| == |es'|
    ensures es != [] ==> es[0].Obj? == es'[0].Obj? && ReencodeAll(lib, es[1..]) == ReencodeAll(lib, es'[1..])
    ensures es != [] && es[0].Obj? ==> Same(lib, es[0].fields, es'[0].fields)
  {
    assert |es| == |ReencodeAll(lib, es)| == |es'|;
    if es != [] {
      assert Reencode(lib, es[0]) == ReencodeAll(lib, es)[0] == Reencode(lib, es'[0]);
      assert ReencodeAll(lib, es[1..]) == ReencodeAll(lib, es)[1..] == ReencodeAll(lib, es'[1..]);
    }
  }

  lemma SameConsed(lib: Numerics, head: Fields, head': Fields, tail: Result<seq<Json>>, tail': Result<seq<Json>>)
    requires Same(lib, head, head') && SameOutcomes(lib, tail, tail')
    ensures tail.Ok? ==> ReencodeAll(lib, [Obj(head)] + tail.value) == ReencodeAll(lib, [Obj(head')] + tail'.value)
  {
    if tail.Ok? {
      var a, b := [Obj(head)] + tail.value, [Obj(head')] + tail'.value;
      assert a[1..] == tail.value && b[1..] == tail'.value;
    }
  }

  lemma {:induction false} WalkEachBlind(lib: Numerics, es: seq<Json>, es': seq<Json>, p: Path, opts: seq<Path>,
      f: LeafFn)
    requires ReencodeAll(lib, es) == ReencodeAll(lib, es') && Blind(lib, f)
    ensures SameOutcomes(lib, WalkEach(es, p, opts, f), WalkEach(es', p, opts, f))
    decreases |p|, 1 + |es|
  {
    SameElements(lib, es, es');
    if es != [] && es[0].Obj? {
      WalkBlind(lib, es[0].fields, es'[0].fields, p, opts, f);
      var head, head' := Walk(es[0].fields, p, opts, f), Walk(es'[0].fields, p, opts, f);
      if head.Ok? {
        WalkEachBlind(lib, es[1..], es'[1..], p, opts, f);
        SameConsed(lib, head.value, head'.value, WalkEach(es[1..], p, opts, f), WalkEach(es'[1..], p, opts, f));
      }
    }
  }

  lemma {:induction false} WalkEnsureBlind(lib: Numerics, obj: Fields, obj': Fields, p: Path, f: LeafFn)
    requires Same(lib, obj, obj') && Blind(lib, f)
    ensures SameOutcome(lib, WalkEnsure(obj, p, f), WalkEnsure(obj', p, f))
    decreases |p|, 0
  {
    if |p| > 1 {
      var name := p[0].name;
      SameShape(lib, obj, obj', name);
      if Missing(obj, name) {
        WalkEnsureBlind(lib, map[], map[], p[1..], f);
        SameInField(lib, obj, obj', name, WalkEnsure(map[], p[1..], f), WalkEnsure(map[], p[1..], f));
      } else {
        var v, v' := obj[name], obj'[name];
        if p[0].isArray && v.Arr? {
          WalkEnsureEachBlind(lib, v.elems, v'.elems, p[1..], f);
          SameInArray(lib, obj, obj', name, WalkEnsureEach(v.elems, p[1..], f), WalkEnsureEach(v'.elems, p[1..], f));
        } else if !p[0].isArray && v.Obj? {
          WalkEnsureBlind(lib, v.fields, v'.fields, p[1..], f);
          SameInField(lib, obj, obj', name, WalkEnsure(v.fields, p[1..], f), WalkEnsure(v'.fields, p[1..], f));
        }
      }
    }
  }

  lemma {:induction false} WalkEnsureEachBlind(lib: Numerics, es: seq<Json>, es': seq<Json>, p: Path, f: LeafFn)
    requires ReencodeAll(lib, es) == ReencodeAll(lib, es') && Blind(lib, f)
    ensures SameOutcomes(lib, WalkEnsureEach(es, p, f), WalkEnsureEach(es', p, f))
    decreases |p|, 1 + |es|
  {
    SameElements(lib, es, es');
    if es != [] && es[0].Obj? {
      WalkEnsureBlind(lib, es[0].fields, es'[0].fields, p, f);
      var head, head' := WalkEnsure(es[0].fields, p, f), WalkEnsure(es'[0].fields, p, f);
      if head.Ok? {
        WalkEnsureEachBlind(lib, es[1..], es'[1..], p, f);
        SameConsed(lib, head.value, head'.value, WalkEnsureEach(es[1..], p, f), WalkEnsureEach(es'[1..], p, f));
      }
    }
  }

  lemma RenameLeafBlind(lib: Numerics, toLeaf: string, covered: bool)
    ensures Blind(lib, RenameLeaf(toLeaf, covered))
  {
    var f := RenameLeaf(toLeaf, covered);
    forall m: Fields, m': Fields, leaf: string | Same(lib, m, m')
      ensures SameOutcome(lib, f(m, leaf), f(m', leaf))
    {
      SameAt(lib, m, m', leaf);
      SameAt(lib, m, m', toLeaf);
      if leaf in m {
        SameRemoved(lib, m, m', leaf);
        SameUpdated(lib, m - {leaf}, m' - {leaf}, toLeaf, m[leaf], m'[leaf]);
      }
    }
  }

  lemma DefaultLeafBlind(lib: Numerics, value: Json)
    ensures Blind(lib, DefaultLeaf(value))
  {
    var f := DefaultLeaf(value);
    forall m: Fields, m': Fields, leaf: string | Same(lib, m, m')
      ensures SameOutcome(lib, f(m, leaf), f(m', leaf))
    {
      SameAt(lib, m, m', leaf);
      SameUpdated(lib, m, m', leaf, value, value);
    }
  }

  // --- the one verb that can tell: a coerce that meets an injected integer ---

  ghost predicate IntegerAt(obj: Fields, pos: Position, leaf: string) {
    && At(Obj(obj), pos).Some? && At(Obj(obj), pos).value.Obj?
    && leaf in At(Obj(obj), pos).value.fields && At(Obj(obj), pos).value.fields[leaf].Integer?
  }

  // The guard that fails (coerce's type switch): a listed leaf parent holds an injected integer.
  ghost predicate CoerceMeets(op: Op, opts: seq<Path>, obj: Fields) {
    && op.Coerce? && ReadLeaves(obj, op.field, opts).Ok?
    && exists pos :: pos in ReadLeaves(obj, op.field, opts).value && IntegerAt(obj, pos, Leaf(op.field))
  }

  // Some coerce of the run meets one.
  ghost predicate MeetsInteger(lib: Numerics, ops: seq<Op>, opts: seq<Path>, obj: Fields)
    requires AllWellFormed(ops)
    decreases |ops|
  {
    ops != [] &&
    (CoerceMeets(ops[0], opts, obj)
     || (Step(lib, ops[0], opts, obj).Ok?
         && MeetsInteger(lib, ops[1..], opts + Tolerated(ops[0]), Step(lib, ops[0], opts, obj).value)))
  }

  lemma MeetingStepFails(lib: Numerics, op: Op, opts: seq<Path>, obj: Fields)
    requires CoerceMeets(op, opts, obj)
    ensures Step(lib, op, opts, obj).Fail?
  {
    var f := CoerceLeaf(lib, op.target, Covers(opts, op.field));
    var pos :| pos in ReadLeaves(obj, op.field, opts).value && IntegerAt(obj, pos, Leaf(op.field));
    RefusedSomewhere(obj, op.field, opts, f, pos);
  }

  lemma RefusedSomewhere(obj: Fields, p: Path, opts: seq<Path>, f: LeafFn, pos: Position)
    requires ReadLeaves(obj, p, opts).Ok? && pos in ReadLeaves(obj, p, opts).value
    requires !Accepts(Obj(obj), pos, Leaf(p), f)
    ensures Walk(obj, p, opts, f).Fail?
  {
    WalkSucceedsExactly(obj, p, opts, f);
  }

  lemma {:induction false} MeetingFails(lib: Numerics, ops: seq<Op>, opts: seq<Path>, obj: Fields)
    requires AllWellFormed(ops) && MeetsInteger(lib, ops, opts, obj)
    ensures Run(lib, ops, opts, obj).Fail?
    decreases |ops|
  {
    if CoerceMeets(ops[0], opts, obj) {
      MeetingStepFails(lib, ops[0], opts, obj);
    } else {
      MeetingFails(lib, ops[1..], opts + Tolerated(ops[0]), Step(lib, ops[0], opts, obj).value);
    }
  }

  // Coerce as it would be if integers were floats already: it cannot tell them apart.
  function BlindCoerceLeaf(lib: Numerics, target: string, covered: bool): LeafFn {
    (parent: Fields, leaf: string) =>
      if leaf !in parent then
        if covered then Ok(parent) else Fail(Absent)
      else
        match CoerceValue(lib, Reencode(lib, parent[leaf]), target)
        case Ok(v) => Ok(parent[leaf := v])
        case Fail(e) => Fail(e)
  }

  lemma CoerceValueShallow(lib: Numerics, v: Json, target: string)
    requires !v.Integer?
    ensures CoerceValue(lib, Reencode(lib, v), target) == CoerceValue(lib, v, target)
  {
  }

  lemma BlindCoerceLeafBlind(lib: Numerics, target: string, covered: bool)
    ensures Blind(lib, BlindCoerceLeaf(lib, target, covered))
  {
    var f := BlindCoerceLeaf(lib, target, covered);
    forall m: Fields, m': Fields, leaf: string | Same(lib, m, m')
      ensures SameOutcome(lib, f(m, leaf), f(m', leaf))
    {
      SameAt(lib, m, m', leaf);
      if leaf in m {
        var r := CoerceValue(lib, Reencode(lib, m[leaf]), target);
        if r.Ok? { SameUpdated(lib, m, m', leaf, r.value, r.value); }
      }
    }
  }

  // Where no listed leaf parent holds an integer, the walk is the blind one.
  lemma CoerceIsBlind(lib: Numerics, op: Op, opts: seq<Path>, obj: Fields)
    requires op.Coerce? && ReadLeaves(obj, op.field, opts).Ok? && !CoerceMeets(op, opts, obj)
    ensures Step(lib, op, opts, obj) == Walk(obj, op.field, opts,
            BlindCoerceLeaf(lib, op.target, Covers(opts, op.field)))
  {
    var covered, leaf := Covers(opts, op.field), Leaf(op.field);
    var f, g := CoerceLeaf(lib, op.target, covered), BlindCoerceLeaf(lib, op.target, covered);
    forall pos | pos in ReadLeaves(obj, op.field, opts).value && At(Obj(obj), pos).Some? && At(Obj(obj), pos).value.Obj?
      ensures f(At(Obj(obj), pos).value.fields, leaf) == g(At(Obj(obj), pos).value.fields, leaf)
    {
      var m := At(Obj(obj), pos).value.fields;
      if leaf in m {
        assert !IntegerAt(obj, pos, leaf);
        CoerceValueShallow(lib, m[leaf], op.target);
      }
    }
    WalkAgrees(obj, op.field, opts, f, g);
  }

  lemma {:induction false} ReadLeavesBlind(lib: Numerics, obj: Fields, obj': Fields, p: Path, opts: seq<Path>)
    requires Same(lib, obj, obj')
    ensures ReadLeaves(obj, p, opts) == ReadLeaves(obj', p, opts)
    decreases |p|, 0
  {
    if |p| > 1 {
      SameShape(lib, obj, obj', p[0].name);
      if !Missing(obj, p[0].name) {
        var v, v' := obj[p[0].name], obj'[p[0].name];
        if p[0].isArray && v.Arr? {
          ReadLeavesFromBlind(lib, v.elems, v'.elems, 0, p[0].name, p[1..], opts);
        } else if !p[0].isArray && v.Obj? {
          ReadLeavesBlind(lib, v.fields, v'.fields, p[1..], opts);
        }
      }
    }
  }

  lemma SameElementAt(lib: Numerics, es: seq<Json>, es': seq<Json>, i: nat)
    requires ReencodeAll(lib, es) == ReencodeAll(lib, es') && i < |es| == |es'|
    ensures es[i].Obj? == es'[i].Obj? && (es[i].Obj? ==> Same(lib, es[i].fields, es'[i].fields))
  {
    var a, b := ReencodeAll(lib, es), ReencodeAll(lib, es');
    assert a[i] == Reencode(lib, es[i]) && b[i] == Reencode(lib, es'[i]);
    SameValue(lib, es[i], es'[i]);
  }

  lemma SameValue(lib: Numerics, e: Json, e': Json)
    requires Reencode(lib, e) == Reencode(lib, e')
    ensures e.Obj? == e'.Obj? && (e.Obj? ==> Same(lib, e.fields, e'.fields))
  {
  }

  lemma {:induction false} ReadLeavesFromBlind(lib: Numerics, es: seq<Json>, es': seq<Json>, i: nat, name: string,
      p: Path, opts: seq<Path>)
    requires ReencodeAll(lib, es) == ReencodeAll(lib, es') && i <= |es| == |es'|
    ensures ReadLeavesFrom(es, i, name, p, opts) == ReadLeavesFrom(es', i, name, p, opts)
    decreases |p|, 1 + |es| - i
  {
    if i < |es| {
      SameElementAt(lib, es, es', i);
      if es[i].Obj? { ReadLeavesBlind(lib, es[i].fields, es'[i].fields, p, opts); }
      ReadLeavesFromBlind(lib, es, es', i + 1, name, p, opts);
    }
  }

  lemma StepBlind(lib: Numerics, op: Op, opts: seq<Path>, obj: Fields, obj': Fields)
    requires WellFormed(op) && Same(lib, obj, obj')
    requires !CoerceMeets(op, opts, obj) && !CoerceMeets(op, opts, obj')
    ensures !op.Coerce? || Step(lib, op, opts, obj).Ok? || Step(lib, op, opts, obj').Ok? ==>
              SameOutcome(lib, Step(lib, op, opts, obj), Step(lib, op, opts, obj'))
  {
    match op
    case Optionalize(_) =>
    case Rename(from, to) =>
      RenameLeafBlind(lib, to[|to| - 1].name, Covers(opts, from));
      WalkBlind(lib, obj, obj', from, opts, RenameLeaf(to[|to| - 1].name, Covers(opts, from)));
    case Default(field, v) =>
      DefaultLeafBlind(lib, v);
      WalkEnsureBlind(lib, obj, obj', field, DefaultLeaf(v));
    case Coerce(field, target) =>
      var covered := Covers(opts, field);
      ReadLeavesBlind(lib, obj, obj', field, opts);
      if ReadLeaves(obj, field, opts).Ok? {
        CoerceIsBlind(lib, op, opts, obj);
        CoerceIsBlind(lib, op, opts, obj');
        BlindCoerceLeafBlind(lib, target, covered);
        WalkBlind(lib, obj, obj', field, opts, BlindCoerceLeaf(lib, target, covered));
      } else {
        WalkSucceedsExactly(obj, field, opts, CoerceLeaf(lib, target, covered));
        WalkSucceedsExactly(obj', field, opts, CoerceLeaf(lib, target, covered));
      }
  }

  // Without a coerce, a run cannot tell a tree from its re-encoding at all.
  lemma {:induction false} RunBlind(lib: Numerics, ops: seq<Op>, opts: seq<Path>, obj: Fields, obj': Fields)
    requires AllWellFormed(ops) && CoerceFree(ops) && Same(lib, obj, obj')
    ensures SameOutcome(lib, Run(lib, ops, opts, obj), Run(lib, ops, opts, obj'))
    decreases |ops|
  {
    if ops != [] {
      StepBlind(lib, ops[0], opts, obj, obj');
      var r, r' := Step(lib, ops[0], opts, obj), Step(lib, ops[0], opts, obj');
      if r.Ok? {
        RunBlind(lib, ops[1..], opts + Tolerated(ops[0]), r.value, r'.value);
      }
    }
  }

  // With coerces, as long as neither run meets an integer: they succeed alike.
  lemma {:induction false} RunsAlike(lib: Numerics, ops: seq<Op>, opts: seq<Path>, obj: Fields, obj': Fields)
    requires AllWellFormed(ops) && Same(lib, obj, obj')
    requires !MeetsInteger(lib, ops, opts, obj) && !MeetsInteger(lib, ops, opts, obj')
    requires Run(lib, ops, opts, obj').Ok?
    ensures SameOutcome(lib, Run(lib, ops, opts, obj), Run(lib, ops, opts, obj'))
    decreases |ops|
  {
    if ops != [] {
      StepBlind(lib, ops[0], opts, obj, obj');
      var r, r' := Step(lib, ops[0], opts, obj), Step(lib, ops[0], opts, obj');
      RunsAlike(lib, ops[1..], opts + Tolerated(ops[0]), r.value, r'.value);
    }
  }

  lemma {:induction false} EncodableAfterReencode(lib: Numerics, j: Json)
    ensures Encodable(Reencode(lib, j)) == Encodable(j)
    decreases j
  {
    match j
    case Arr(es) =>
      forall i | 0 <= i < |es| ensures Encodable(Reencode(lib, es[i])) == Encodable(es[i]) {
        EncodableAfterReencode(lib, es[i]);
      }
      var rs := ReencodeAll(lib, es);
      assert forall i :: 0 <= i < |es| ==> Encodable(rs[i]) == Encodable(es[i]);
    case Obj(m) =>
      forall k | k in m ensures Encodable(Reencode(lib, m[k])) == Encodable(m[k]) {
        EncodableAfterReencode(lib, m[k]);
      }
      var rm := ReencodeFields(lib, m);
      assert forall k :: k in m ==> Encodable(rm[k]) == Encodable(m[k]);
    case _ =>
  }

  // --- fusion ---

  function AllTolerated(ops: seq<Op>): seq<Path> {
    if ops == [] then [] else Tolerated(ops[0]) + AllTolerated(ops[1..])
  }

  lemma WellFormedConcat(ops1: seq<Op>, ops2: seq<Op>)
    requires AllWellFormed(ops1) && AllWellFormed(ops2)
    ensures AllWellFormed(ops1 + ops2)
    ensures ops1 == [] ==> ops1 + ops2 == ops2
    ensures ops1 != [] ==> (ops1 + ops2)[0] == ops1[0] && (ops1 + ops2)[1..] == ops1[1..] + ops2
  {
    assert ops1 == [] || (ops1 + ops2)[1..] == ops1[1..] + ops2;
  }

  lemma RunUnfolds(lib: Numerics, ops: seq<Op>, opts: seq<Path>, obj: Fields)
    requires AllWellFormed(ops) && ops != [] && Step(lib, ops[0], opts, obj).Ok?
    ensures Run(lib, ops, opts, obj) ==
            Run(lib, ops[1..], opts + Tolerated(ops[0]), Step(lib, ops[0], opts, obj).value)
  {
  }

  lemma {:induction false} RunConcat(lib: Numerics, ops1: seq<Op>, ops2: seq<Op>, opts: seq<Path>, obj: Fields)
    requires AllWellFormed(ops1) && AllWellFormed(ops2)
    requires Run(lib, ops1, opts, obj).Ok?
    ensures AllWellFormed(ops1 + ops2)
    ensures Run(lib, ops1 + ops2, opts, obj) == Run(lib, ops2, opts + AllTolerated(ops1),
            Run(lib, ops1, opts, obj).value)
    decreases |ops1|
  {
    WellFormedConcat(ops1, ops2);
    if ops1 == [] {
      assert opts + AllTolerated(ops1) == opts;
    } else {
      var next := Step(lib, ops1[0], opts, obj).value;
      RunConcat(lib, ops1[1..], ops2, opts + Tolerated(ops1[0]), next);
      RunUnfolds(lib, ops1, opts, obj);
      RunUnfolds(lib, ops1 + ops2, opts, obj);
      assert opts + Tolerated(ops1[0]) + AllTolerated(ops1[1..]) == opts + AllTolerated(ops1);
    }
  }

  lemma {:induction false} InsertedRefl(ops: seq<Op>)
    ensures Inserted(ops, ops)
    decreases |ops|
  {
    if ops != [] { InsertedRefl(ops[1..]); }
  }

  // A run of a concatenated list meets an integer in its first half or in its second.
  lemma {:induction false} MeetsConcat(lib: Numerics, ops1: seq<Op>, ops2: seq<Op>, opts: seq<Path>, obj: Fields)
    requires AllWellFormed(ops1) && AllWellFormed(ops2)
    ensures AllWellFormed(ops1 + ops2)
    ensures var r := Run(lib, ops1, opts, obj);
            MeetsInteger(lib, ops1 + ops2, opts, obj) <==>
              MeetsInteger(lib, ops1, opts, obj)
              || (r.Ok? && MeetsInteger(lib, ops2, opts + AllTolerated(ops1), r.value))
    decreases |ops1|
  {
    WellFormedConcat(ops1, ops2);
    if ops1 == [] {
      assert opts + AllTolerated(ops1) == opts;
    } else if Step(lib, ops1[0], opts, obj).Ok? {
      MeetsConcat(lib, ops1[1..], ops2, opts + Tolerated(ops1[0]), Step(lib, ops1[0], opts, obj).value);
      RunUnfolds(lib, ops1, opts, obj);
      assert opts + Tolerated(ops1[0]) + AllTolerated(ops1[1..]) == opts + AllTolerated(ops1);
    }
  }

  // The fused call is right on this body: it succeeds with the tree of the two calls.
  ghost predicate Fuses(lib: Numerics, ops1: seq<Op>, ops2: seq<Op>, body: Json)
    requires AllWellFormed(ops1) && AllWellFormed(ops2)
    requires Apply(lib, ops1, body).Ok?
  {
    && AllWellFormed(ops1 + ops2)
    && Apply(lib, ops1 + ops2, body) == Apply(lib, ops2, Apply(lib, ops1, body).value)
  }

  // The second list, run on from where the first one ended, meets an integer at a coerced leaf.
  ghost predicate FusedMeetsInteger(lib: Numerics, ops1: seq<Op>, ops2: seq<Op>, body: Json)
    requires AllWellFormed(ops1) && AllWellFormed(ops2) && body.Obj?
  {
    && Run(lib, ops1, [], body.fields).Ok?
    && MeetsInteger(lib, ops2, AllTolerated(ops1), Run(lib, ops1, [], body.fields).value)
  }

  // What the two calls do, in terms of runs.
  lemma TwoCalls(lib: Numerics, ops1: seq<Op>, ops2: seq<Op>, body: Json) returns (t1: Fields, b1: Fields)
    requires AllWellFormed(ops1) && AllWellFormed(ops2) && Decoded(body) && body.Obj?
    requires Apply(lib, ops1, body).Ok? && Apply(lib, ops2, Apply(lib, ops1, body).value).Ok?
    ensures Run(lib, ops1, [], body.fields) == Ok(t1) && Encodable(Obj(t1))
    ensures Apply(lib, ops1, body) == Ok(Obj(b1)) && Reencode(lib, Obj(t1)) == Obj(b1) && Same(lib, t1, b1)
    ensures var opts := AllTolerated(ops1);
            && Run(lib, ops2, opts, b1).Ok? && Encodable(Obj(Run(lib, ops2, opts, b1).value))
            && Apply(lib, ops2, Obj(b1)) == Ok(Reencode(lib, Obj(Run(lib, ops2, opts, b1).value)))
  {
    t1 := Run(lib, ops1, [], body.fields).value;
    ReencodeIdentity(lib, body);
    b1 := Reencode(lib, Obj(t1)).fields;
    ReencodeIsDecoded(lib, Obj(t1));
    ReencodeIdentity(lib, Obj(b1));
    if ops2 != [] {
      InsertedRefl(ops2);
      RunMonotone(lib, ops2, ops2, [], AllTolerated(ops1), b1);
    }
  }

  // What the one call does.
  lemma OneCall(lib: Numerics, ops1: seq<Op>, ops2: seq<Op>, body: Json, t1: Fields)
    requires AllWellFormed(ops1) && AllWellFormed(ops2) && Decoded(body) && body.Obj?
    requires Run(lib, ops1, [], body.fields) == Ok(t1)
    ensures AllWellFormed(ops1 + ops2)
    ensures var r := Run(lib, ops2, AllTolerated(ops1), t1);
            && (r.Fail? ==> Apply(lib, ops1 + ops2, body).Fail?)
            && (r.Ok? && Encodable(Obj(r.value)) ==> Apply(lib, ops1 + ops2, body) == Ok(Reencode(lib, Obj(r.value))))
  {
    RunConcat(lib, ops1, ops2, [], body.fields);
    assert [] + AllTolerated(ops1) == AllTolerated(ops1);
    ReencodeIdentity(lib, body);
  }

  // Fusion, exactly: where the two calls succeed, the one call on the concatenated list gives the
  // same tree iff its second half meets no integer at a leaf it coerces.
  lemma FusionExactly(lib: Numerics, ops1: seq<Op>, ops2: seq<Op>, body: Json)
    requires AllWellFormed(ops1) && AllWellFormed(ops2) && Decoded(body) && body.Obj?
    requires Apply(lib, ops1, body).Ok? && Apply(lib, ops2, Apply(lib, ops1, body).value).Ok?
    ensures Fuses(lib, ops1, ops2, body) <==> !FusedMeetsInteger(lib, ops1, ops2, body)
  {
    var t1, b1 := TwoCalls(lib, ops1, ops2, body);
    var opts := AllTolerated(ops1);
    OneCall(lib, ops1, ops2, body, t1);
    if MeetsInteger(lib, ops2, opts, t1) {
      MeetingFails(lib, ops2, opts, t1);
    } else {
      if MeetsInteger(lib, ops2, opts, b1) { MeetingFails(lib, ops2, opts, b1); }
      RunsAlike(lib, ops2, opts, t1, b1);
      var t2, t2' := Run(lib, ops2, opts, b1).value, Run(lib, ops2, opts, t1).value;
      SameEncodes(lib, t2', t2);
    }
  }

  lemma SameEncodes(lib: Numerics, m: Fields, m': Fields)
    requires Same(lib, m, m')
    ensures Reencode(lib, Obj(m)) == Reencode(lib, Obj(m')) && Encodable(Obj(m)) == Encodable(Obj(m'))
  {
    assert Reencode(lib, Obj(m)) == Reencode(lib, Obj(m'));
    EncodableAfterReencode(lib, Obj(m));
    EncodableAfterReencode(lib, Obj(m'));
  }

  // A condition on the lists alone that is enough: the first injects no integer, or the second
  // coerces nothing.
  lemma Fusion(lib: Numerics, ops1: seq<Op>, ops2: seq<Op>, body: Json)
    requires AllWellFormed(ops1) && AllWellFormed(ops2)
    requires Decoded(body) && body.Obj?
    requires DefaultsIntegerFree(ops1) || CoerceFree(ops2)
    requires Apply(lib, ops1, body).Ok?
    requires Apply(lib, ops2, Apply(lib, ops1, body).value).Ok?
    ensures AllWellFormed(ops1 + ops2)
    ensures Apply(lib, ops1 + ops2, body) == Apply(lib, ops2, Apply(lib, ops1, body).value)
  {
    var t1, b1 := TwoCalls(lib, ops1, ops2, body);
    if CoerceFree(ops2) {
      CoerceFreeMeetsNothing(lib, ops2, AllTolerated(ops1), t1);
    } else {
      RunKeepsClean(lib, ops1, [], body.fields);
      ReencodeIdentity(lib, Obj(t1));
      if MeetsInteger(lib, ops2, AllTolerated(ops1), t1) { MeetingFails(lib, ops2, AllTolerated(ops1), t1); }
    }
    FusionExactly(lib, ops1, ops2, body);
  }

  lemma {:induction false} CoerceFreeMeetsNothing(lib: Numerics, ops: seq<Op>, opts: seq<Path>, obj: Fields)
    requires AllWellFormed(ops) && CoerceFree(ops)
    ensures !MeetsInteger(lib, ops, opts, obj)
    decreases |ops|
  {
    if ops != [] && Step(lib, ops[0], opts, obj).Ok? {
      CoerceFreeMeetsNothing(lib, ops[1..], opts + Tolerated(ops[0]), Step(lib, ops[0], opts, obj).value);
    }
  }

  // The remaining case really fails: across links the injected 1 is a float by the time it is
  // coerced, in one list it is still a Go integer.
  lemma FusionNeedsTheCondition(lib: Numerics)
    ensures var f := [Segment("n", false)];
            var ops1, ops2 := [Default(f, Integer(1))], [Coerce(f, "string")];
            && Apply(lib, ops1, Obj(map[])).Ok?
            && Apply(lib, ops2, Apply(lib, ops1, Obj(map[])).value).Ok?
            && Apply(lib, ops1 + ops2, Obj(map[])) == Fail(NotCoercible)
  {
    var f := [Segment("n", false)];
    var default, coerce := Default(f, Integer(1)), Coerce(f, "string");
    var t: Fields := map["n" := Integer(1)];
    assert Step(lib, default, [], map[]) == Ok(t);
    assert Run(lib, [default], [], map[]) == Ok(t);
    var b: Fields := map["n" := Number(lib.OfInt(1))];
    assert ReencodeFields(lib, t) == b;
    assert Apply(lib, [default], Obj(map[])) == Ok(Obj(b));
    assert Step(lib, coerce, [], b) == Ok(b["n" := Str(lib.format(lib.OfInt(1)))]);
    var out := b["n" := Str(lib.format(lib.OfInt(1)))];
    assert Run(lib, [coerce], [], b) == Ok(out);
    assert Encodable(out["n"]) && Encodable(Obj(out));
    assert Apply(lib, [coerce], Obj(b)).Ok?;
    assert [default] + [coerce] == [default, coerce] && [default, coerce][1..] == [coerce];
    assert Step(lib, coerce, [], t) == Fail(NotCoercible);
    assert [] + Tolerated(default) == [];
    assert Run(lib, [coerce], [], t) == Fail(NotCoercible);
    assert Run(lib, [default, coerce], [], map[]) == Fail(NotCoercible);
  }
}
