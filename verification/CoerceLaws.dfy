/**
 Coerce as a representation change (internal/transform/transform.go, coerce): what it accepts, that it
 settles in one step, and what survives a change of type and back.
 */
module CoerceLaws {
  import opened Json
  import opened Transform
  import opened WalkLaws

  predicate OfType(v: Json, target: string) {
    (target == "string" && v.Str?) || (target == "number" && v.Number?) || (target == "bool" && v.Bool?)
  }

  // The inputs coerce accepts. An injected integer is not one of them.
  predicate Coercible(lib: Numerics, v: Json, target: string) {
    OfType(v, target)
    || (target == "string" && (v.Number? || v.Bool?))
    || (target == "number" && v.Str? && lib.parse(v.s).Some?)
    || (target == "bool" && v.Str? && (v.s == "true" || v.s == "false"))
  }

  lemma CoerceValueSettles(lib: Numerics, v: Json, target: string)
    ensures CoerceValue(lib, v, target).Ok? <==> Coercible(lib, v, target)
    ensures CoerceValue(lib, v, target).Ok? ==> OfType(CoerceValue(lib, v, target).value, target)
    ensures OfType(v, target) ==> CoerceValue(lib, v, target) == Ok(v)
  {
  }

  // Values that survive a change of type and back: those already of the type they come back to, when
  // printing and reading them is faithful.
  predicate Survives(lib: Numerics, v: Json, target: string, back: string) {
    && OfType(v, back)
    && (target == back ||
        match v
        case Bool(_) => true
        case Number(x) => lib.parse(lib.format(x)) == Some(x)
        case Str(s) => target == "bool" || (lib.parse(s).Some? && lib.format(lib.parse(s).value) == s)
        case _ => false)
  }

  lemma SurvivesExactly(lib: Numerics, v: Json, target: string, back: string)
    requires CoerceValue(lib, v, target).Ok?
    ensures CoerceValue(lib, CoerceValue(lib, v, target).value, back) == Ok(v) <==> Survives(lib, v, target, back)
  {
    CoerceValueSettles(lib, v, target);
    CoerceValueSettles(lib, CoerceValue(lib, v, target).value, back);
    assert "true" != "false";
  }

  // Coerce settles: it succeeds exactly when its leaf parents can be listed and each of them holds a
  // coercible leaf (or none, when covered), and a second coerce changes nothing.
  lemma CoerceSettles(lib: Numerics, obj: Fields, p: Path, target: string, opts: seq<Path>)
    ensures Step(lib, Coerce(p, target), opts, obj).Ok? <==>
              && ReadLeaves(obj, p, opts).Ok?
              && forall pos :: pos in ReadLeaves(obj, p, opts).value ==> LeafCoercible(lib, obj, pos, p, target, opts)
    ensures var r := Step(lib, Coerce(p, target), opts, obj);
            r.Ok? ==> Step(lib, Coerce(p, target), opts, r.value) == r
  {
    var f := CoerceLeaf(lib, target, Covers(opts, p));
    WalkSucceedsExactly(obj, p, opts, f);
    if ReadLeaves(obj, p, opts).Ok? {
      forall pos | pos in ReadLeaves(obj, p, opts).value
        ensures Accepts(Obj(obj), pos, Leaf(p), f) <==> LeafCoercible(lib, obj, pos, p, target, opts)
      {
        if At(Obj(obj), pos).Some? && At(Obj(obj), pos).value.Obj? && Leaf(p) in At(Obj(obj), pos).value.fields {
          CoerceValueSettles(lib, At(Obj(obj), pos).value.fields[Leaf(p)], target);
        }
      }
    }
    if Walk(obj, p, opts, f).Ok? {
      WalkComposes(obj, p, opts, f, f);
      forall m: Fields, leaf: string | f(m, leaf).Ok? ensures Then(f, f)(m, leaf) == f(m, leaf) {
        if leaf in m {
          CoerceValueSettles(lib, m[leaf], target);
          var v := CoerceValue(lib, m[leaf], target).value;
          CoerceValueSettles(lib, v, target);
          assert m[leaf := v][leaf := v] == m[leaf := v];
        }
      }
      WalkAgrees(obj, p, opts, Then(f, f), f);
    }
  }

  ghost predicate LeafCoercible(lib: Numerics, obj: Fields, pos: Position, p: Path, target: string, opts: seq<Path>) {
    && At(Obj(obj), pos).Some? && At(Obj(obj), pos).value.Obj?
    && var m := At(Obj(obj), pos).value.fields;
       if Leaf(p) in m then Coercible(lib, m[Leaf(p)], target) else Covers(opts, p)
  }

  // Coerce there and back restores the body exactly when every coerced leaf survives the round trip.
  lemma CoerceThereAndBack(lib: Numerics, obj: Fields, p: Path, target: string, back: string, opts: seq<Path>)
    requires Step(lib, Coerce(p, target), opts, obj).Ok?
    ensures ReadLeaves(obj, p, opts).Ok?
    ensures Step(lib, Coerce(p, back), opts, Step(lib, Coerce(p, target), opts, obj).value) == Ok(obj) <==>
              forall pos :: pos in ReadLeaves(obj, p, opts).value ==> LeafSurvives(lib, obj, pos, Leaf(p), target, back)
  {
    var f, g := CoerceLeaf(lib, target, Covers(opts, p)), CoerceLeaf(lib, back, Covers(opts, p));
    WalkSucceedsExactly(obj, p, opts, f);
    WalkBackExactly(obj, p, opts, f, g);
    forall pos | pos in ReadLeaves(obj, p, opts).value
      ensures ComesBack(Obj(obj), pos, Leaf(p), f, g) <==> LeafSurvives(lib, obj, pos, Leaf(p), target, back)
    {
      assert Accepts(Obj(obj), pos, Leaf(p), f);
      var m := At(Obj(obj), pos).value.fields;
      LeafComesBack(lib, m, Leaf(p), target, back, Covers(opts, p));
    }
  }

  ghost predicate LeafSurvives(lib: Numerics, obj: Fields, pos: Position, leaf: string, target: string, back: string) {
    && At(Obj(obj), pos).Some? && At(Obj(obj), pos).value.Obj?
    && (leaf in At(Obj(obj), pos).value.fields ==> Survives(lib, At(Obj(obj), pos).value.fields[leaf], target, back))
  }

  lemma LeafComesBack(lib: Numerics, m: Fields, leaf: string, target: string, back: string, covered: bool)
    requires CoerceLeaf(lib, target, covered)(m, leaf).Ok?
    ensures Then(CoerceLeaf(lib, target, covered), CoerceLeaf(lib, back, covered))(m, leaf) == Ok(m)
       <==> (leaf in m ==> Survives(lib, m[leaf], target, back))
  {
    if leaf in m {
      SurvivesExactly(lib, m[leaf], target, back);
      var v := CoerceValue(lib, m[leaf], target).value;
      var r := CoerceValue(lib, v, back);
      if r.Ok? {
        assert m[leaf := v][leaf := r.value] == m[leaf := r.value];
        assert m[leaf := m[leaf]] == m && m[leaf := r.value][leaf] == r.value;
      }
    }
  }
}
