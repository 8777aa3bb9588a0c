/**
 Optionalize only ever forgives: adding stanzas never breaks a run that succeeded and never changes
 its tree. And where its tolerance really applies: at an absent intermediate the code tests coverage
 on the remaining path, not on the whole one as docs/protocol.md promises.
 */
module OptionalizeLaws {
  import opened Json
  import opened Transform

  // Every stanza of `opts` is also in `more`.
  ghost predicate Within(opts: seq<Path>, more: seq<Path>) {
    forall q :: q in opts ==> q in more
  }

  // Wherever f succeeds, g succeeds with the same parent.
  ghost predicate Agrees(f: LeafFn, g: LeafFn) {
    forall m: Fields, leaf: string :: f(m, leaf).Ok? ==> g(m, leaf) == f(m, leaf)
  }

  lemma CoversWithin(opts: seq<Path>, more: seq<Path>, p: Path)
    requires Within(opts, more) && Covers(opts, p)
    ensures Covers(more, p)
  {
    var i :| 0 <= i < |opts| && HasPrefixByName(p, opts[i]);
    assert opts[i] in more;
    var j :| 0 <= j < |more| && more[j] == opts[i];
    assert HasPrefixByName(p, more[j]);
  }

  lemma {:induction false} WalkMonotone(obj: Fields, p: Path, opts: seq<Path>, more: seq<Path>, f: LeafFn, g: LeafFn)
    requires Within(opts, more) && Agrees(f, g)
    requires Walk(obj, p, opts, f).Ok?
    ensures Walk(obj, p, more, g) == Walk(obj, p, opts, f)
    decreases |p|, 0
  {
    if |p| > 1 {
      var name := p[0].name;
      if Missing(obj, name) {
        CoversWithin(opts, more, p);
      } else if p[0].isArray {
        WalkEachMonotone(obj[name].elems, p[1..], opts, more, f, g);
      } else {
        WalkMonotone(obj[name].fields, p[1..], opts, more, f, g);
      }
    }
  }

  lemma {:induction false} WalkEachMonotone(elems: seq<Json>, p: Path, opts: seq<Path>, more: seq<Path>, f: LeafFn,
      g: LeafFn)
    requires Within(opts, more) && Agrees(f, g)
    requires WalkEach(elems, p, opts, f).Ok?
    ensures WalkEach(elems, p, more, g) == WalkEach(elems, p, opts, f)
    decreases |p|, 1 + |elems|
  {
    if elems != [] {
      WalkMonotone(elems[0].fields, p, opts, more, f, g);
      WalkEachMonotone(elems[1..], p, opts, more, f, g);
    }
  }

  lemma StepMonotone(lib: Numerics, op: Op, opts: seq<Path>, more: seq<Path>, obj: Fields)
    requires WellFormed(op) && Within(opts, more)
    requires Step(lib, op, opts, obj).Ok?
    ensures Step(lib, op, more, obj) == Step(lib, op, opts, obj)
  {
    match op
    case Rename(from, to) =>
      if Covers(opts, from) { CoversWithin(opts, more, from); }
      var leaf := to[|to| - 1].name;
      WalkMonotone(obj, from, opts, more, RenameLeaf(leaf, Covers(opts, from)), RenameLeaf(leaf, Covers(more, from)));
    case Coerce(field, target) =>
      if Covers(opts, field) { CoversWithin(opts, more, field); }
      WalkMonotone(obj, field, opts, more,
        CoerceLeaf(lib, target, Covers(opts, field)), CoerceLeaf(lib, target, Covers(more, field)));
    case _ =>
  }

  // `more` is `ops` with optionalize stanzas inserted at any places.
  ghost predicate Inserted(ops: seq<Op>, more: seq<Op>)
    decreases |more|
  {
    if more == [] then ops == []
    else
      || (ops != [] && ops[0] == more[0] && Inserted(ops[1..], more[1..]))
      || (more[0].Optionalize? && Inserted(ops, more[1..]))
  }

  lemma {:induction false} RunMonotone(lib: Numerics, ops: seq<Op>, more: seq<Op>, opts: seq<Path>,
      opts': seq<Path>, obj: Fields)
    requires AllWellFormed(ops) && AllWellFormed(more)
    requires Inserted(ops, more) && Within(opts, opts')
    requires Run(lib, ops, opts, obj).Ok?
    ensures Run(lib, more, opts', obj) == Run(lib, ops, opts, obj)
    decreases |more|
  {
    if more != [] {
      if ops != [] && ops[0] == more[0] && Inserted(ops[1..], more[1..]) {
        StepMonotone(lib, ops[0], opts, opts', obj);
        var next := Step(lib, ops[0], opts, obj).value;
        RunMonotone(lib, ops[1..], more[1..], opts + Tolerated(ops[0]), opts' + Tolerated(ops[0]), next);
      } else {
        RunMonotone(lib, ops, more[1..], opts, opts' + Tolerated(more[0]), obj);
      }
    }
  }

  // Monotonicity of a whole call. The only case left out is an empty list growing on a body that
  // is not an object: the empty list never parses its body, any other list must.
  lemma ApplyMonotone(lib: Numerics, ops: seq<Op>, more: seq<Op>, body: Json)
    requires AllWellFormed(ops) && AllWellFormed(more)
    requires Inserted(ops, more) && Decoded(body)
    requires ops != [] || body.Obj? || more == []
    requires Apply(lib, ops, body).Ok?
    ensures Apply(lib, more, body) == Apply(lib, ops, body)
  {
    if more == [] {
    } else {
      if ops == [] {
        ReencodeIdentity(lib, body);
      }
      RunMonotone(lib, ops, more, [], [], body.fields);
    }
  }

  // The condition of ApplyMonotone is exact: monotone on every body iff the list was not empty (or
  // nothing was inserted).
  lemma MonotoneExactly(lib: Numerics, ops: seq<Op>, more: seq<Op>)
    requires AllWellFormed(ops) && AllWellFormed(more) && Inserted(ops, more)
    ensures (forall body :: Decoded(body) && Apply(lib, ops, body).Ok? ==>
            Apply(lib, more, body) == Apply(lib, ops, body))
       <==> (ops != [] || more == [])
  {
    if ops != [] || more == [] {
      forall body | Decoded(body) && Apply(lib, ops, body).Ok?
        ensures Apply(lib, more, body) == Apply(lib, ops, body)
      {
        ApplyMonotone(lib, ops, more, body);
      }
    } else {
      assert Decoded(Null) && Apply(lib, ops, Null) == Ok(Null) && Apply(lib, more, Null).Fail?;
    }
  }

  // --- coverage: what the documentation promises, and when the code delivers it ---

  // The read-mode walker with coverage tested on the whole path `full`, as documented. `depth`
  // segments of it have been walked.
  function DocumentedWalk(obj: Fields, full: Path, depth: nat, opts: seq<Path>, f: LeafFn): Result<Fields>
    requires depth <= |full|
    decreases |full| - depth, 0
  {
    var p := full[depth..];
    if |p| == 0 then Fail(EmptyPath)
    else if |p| == 1 then f(obj, p[0].name)
    else
      var name := p[0].name;
      if Missing(obj, name) then
        if Covers(opts, full) then Ok(obj) else Fail(Absent)
      else if p[0].isArray then
        if !obj[name].Arr? then Fail(WrongShape)
        else
          var elems :- DocumentedWalkEach(obj[name].elems, full, depth + 1, opts, f);
          Ok(obj[name := Arr(elems)])
      else if !obj[name].Obj? then Fail(WrongShape)
      else
        var sub :- DocumentedWalk(obj[name].fields, full, depth + 1, opts, f);
        Ok(obj[name := Obj(sub)])
  }

  function DocumentedWalkEach(elems: seq<Json>, full: Path, depth: nat, opts: seq<Path>, f: LeafFn): Result<seq<Json>>
    requires depth <= |full|
    decreases |full| - depth, 1 + |elems|
  {
    if elems == [] then Ok([])
    else if !elems[0].Obj? then Fail(WrongShape)
    else
      var head :- DocumentedWalk(elems[0].fields, full, depth, opts, f);
      var tail :- DocumentedWalkEach(elems[1..], full, depth, opts, f);
      Ok([Obj(head)] + tail)
  }

  // The verdict on every proper suffix that can be tested agrees with the verdict on the whole path.
  ghost predicate SuffixVerdictsAgree(full: Path, opts: seq<Path>, depth: nat) {
    forall d :: depth <= d && d + 1 < |full| ==> Covers(opts, full[d..]) == Covers(opts, full)
  }

  lemma {:induction false} DocumentedWhenVerdictsAgree(obj: Fields, full: Path, depth: nat, opts: seq<Path>, f: LeafFn)
    requires depth <= |full| && SuffixVerdictsAgree(full, opts, depth)
    ensures Walk(obj, full[depth..], opts, f) == DocumentedWalk(obj, full, depth, opts, f)
    decreases |full| - depth, 0
  {
    var p := full[depth..];
    if |p| > 1 && !Missing(obj, p[0].name) {
      assert p[1..] == full[depth + 1..];
      var v := obj[p[0].name];
      if p[0].isArray && v.Arr? {
        DocumentedEachWhenVerdictsAgree(v.elems, full, depth + 1, opts, f);
      } else if !p[0].isArray && v.Obj? {
        DocumentedWhenVerdictsAgree(v.fields, full, depth + 1, opts, f);
      }
    }
  }

  lemma {:induction false} DocumentedEachWhenVerdictsAgree(elems: seq<Json>, full: Path, depth: nat,
      opts: seq<Path>, f: LeafFn)
    requires depth <= |full| && SuffixVerdictsAgree(full, opts, depth)
    ensures WalkEach(elems, full[depth..], opts, f) == DocumentedWalkEach(elems, full, depth, opts, f)
    decreases |full| - depth, 1 + |elems|
  {
    if elems != [] && elems[0].Obj? {
      DocumentedWhenVerdictsAgree(elems[0].fields, full, depth, opts, f);
      DocumentedEachWhenVerdictsAgree(elems[1..], full, depth, opts, f);
    }
  }

  // An object in which exactly the first `len` segments of p are present, as the path expects them.
  function PresentUpTo(p: Path, len: nat): Fields
    requires len <= |p|
    decreases len
  {
    if len == 0 then map[]
    else
      var inner := Obj(PresentUpTo(p[1..], len - 1));
      map[p[0].name := if p[0].isArray then Arr([inner]) else inner]
  }

  lemma {:induction false} WalksDiffer(full: Path, depth: nat, d: nat, opts: seq<Path>, f: LeafFn)
    requires depth <= d && d + 1 < |full|
    requires Covers(opts, full[d..]) != Covers(opts, full)
    ensures Walk(PresentUpTo(full[depth..], d - depth), full[depth..], opts, f).Ok?
         != DocumentedWalk(PresentUpTo(full[depth..], d - depth), full, depth, opts, f).Ok?
    decreases d - depth
  {
    var p := full[depth..];
    assert p[1..] == full[depth + 1..];
    var obj := PresentUpTo(p, d - depth);
    if depth < d {
      WalksDiffer(full, depth + 1, d, opts, f);
      var inner := PresentUpTo(p[1..], d - depth - 1);
      if p[0].isArray {
        assert obj[p[0].name].elems == [Obj(inner)];
        assert WalkEach([Obj(inner)][1..], p[1..], opts, f) == Ok([]);
        assert DocumentedWalkEach([Obj(inner)][1..], full, depth + 1, opts, f) == Ok([]);
      }
    }
  }

  // The walker keeps the documented promise on every object iff no suffix verdict differs: a
  // condition on the path and the stanzas alone.
  lemma DocumentedExactly(full: Path, opts: seq<Path>, f: LeafFn)
    ensures (forall obj :: Walk(obj, full, opts, f) == DocumentedWalk(obj, full, 0, opts, f))
       <==> SuffixVerdictsAgree(full, opts, 1)
  {
    assert full[0..] == full;
    if SuffixVerdictsAgree(full, opts, 1) {
      forall obj ensures Walk(obj, full, opts, f) == DocumentedWalk(obj, full, 0, opts, f) {
        DocumentedWhenVerdictsAgree(obj, full, 0, opts, f);
      }
    } else {
      var d :| 1 <= d && d + 1 < |full| && Covers(opts, full[d..]) != Covers(opts, full);
      WalksDiffer(full, 0, d, opts, f);
    }
  }

  // The family that fails, at its smallest: `optionalize data` does not excuse a missing data.user.
  lemma CoverageLostBelowFirstSegment(lib: Numerics)
    ensures var ops := [Optionalize([Segment("data", false)]),
                        Coerce([Segment("data", false), Segment("user", false), Segment("email", false)], "string")];
            Apply(lib, ops, Obj(map["data" := Obj(map[])])) == Fail(Absent)
  {
    var data, user, email := Segment("data", false), Segment("user", false), Segment("email", false);
    var opt, coerce := Optionalize([data]), Coerce([data, user, email], "string");
    var body: Fields := map["data" := Obj(map[])];
    assert !Covers([[data]], [user, email]);
    assert [data, user, email][1..] == [user, email];
    var f := CoerceLeaf(lib, "string", Covers([[data]], [data, user, email]));
    assert Walk(map[], [user, email], [[data]], f) == Fail(Absent);
    assert Step(lib, coerce, [[data]], body) == Fail(Absent);
    assert [opt, coerce][1..] == [coerce];
    assert [] + Tolerated(opt) == [[data]];
    assert Run(lib, [coerce], [[data]], body) == Fail(Absent);
    assert Run(lib, [opt, coerce], [], body) == Fail(Absent);
  }
}
