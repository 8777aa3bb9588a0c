/**
 Default is the safe writer: whatever it touched can be read back along the same path, twice is the
 same as once, and nothing that was there is lost.
 */
module DefaultLaws {
  import opened Json
  import opened Transform
  import opened WalkLaws

  // The leaf parents a write-mode walk hands to its verb, in order; those it creates included.
  function WriteLeaves(obj: Fields, p: Path): Result<seq<Position>>
    decreases |p|, 0
  {
    if |p| == 0 then Fail(EmptyPath)
    else if |p| == 1 then Ok([[]])
    else
      var name := p[0].name;
      if p[0].isArray then
        if Missing(obj, name) then Fail(Absent)
        else if !obj[name].Arr? then Fail(WrongShape)
        else WriteLeavesFrom(obj[name].elems, 0, name, p[1..])
      else if Missing(obj, name) then
        var inner :- WriteLeaves(map[], p[1..]);
        Ok(Below([Key(name)], inner))
      else if !obj[name].Obj? then Fail(WrongShape)
      else
        var inner :- WriteLeaves(obj[name].fields, p[1..]);
        Ok(Below([Key(name)], inner))
  }

  function WriteLeavesFrom(elems: seq<Json>, i: nat, name: string, p: Path): Result<seq<Position>>
    requires i <= |elems|
    decreases |p|, 1 + |elems| - i
  {
    if i == |elems| then Ok([])
    else if !elems[i].Obj? then Fail(WrongShape)
    else
      var head :- WriteLeaves(elems[i].fields, p);
      var tail :- WriteLeavesFrom(elems, i + 1, name, p);
      Ok(Below([Key(name), Index(i)], head) + tail)
  }

  // --- default ---

  lemma {:induction false} EnsureThenRead(obj: Fields, p: Path, v: Json, opts: seq<Path>)
    requires WalkEnsure(obj, p, DefaultLeaf(v)).Ok?
    ensures ReadLeaves(WalkEnsure(obj, p, DefaultLeaf(v)).value, p, opts) == WriteLeaves(obj, p)
    decreases |p|, 0
  {
    if |p| > 1 {
      var name := p[0].name;
      if p[0].isArray {
        var out := WalkEnsureEach(obj[name].elems, p[1..], DefaultLeaf(v)).value;
        assert obj[name].elems[0..] == obj[name].elems && out[0..] == out;
        EnsureEachThenRead(obj[name].elems, out, 0, name, p[1..], v, opts);
      } else {
        EnsureThenRead(if Missing(obj, name) then map[] else obj[name].fields, p[1..], v, opts);
      }
    }
  }

  lemma {:induction false} EnsureEachThenRead(elems: seq<Json>, out: seq<Json>, i: nat, name: string, p: Path,
      v: Json, opts: seq<Path>)
    requires i <= |elems| == |out|
    requires WalkEnsureEach(elems[i..], p, DefaultLeaf(v)) == Ok(out[i..])
    ensures ReadLeavesFrom(out, i, name, p, opts) == WriteLeavesFrom(elems, i, name, p)
    decreases |p|, 1 + |elems| - i
  {
    if i < |elems| {
      assert elems[i..][1..] == elems[i + 1..];
      assert out[i..][1..] == out[i + 1..];
      assert WalkEnsureEach(elems[i + 1..], p, DefaultLeaf(v)) == Ok(out[i + 1..]);
      EnsureThenRead(elems[i].fields, p, v, opts);
      EnsureEachThenRead(elems, out, i + 1, name, p, v, opts);
    }
  }

  lemma {:induction false} WriteLeavesSucceed(obj: Fields, p: Path, f: LeafFn)
    requires WalkEnsure(obj, p, f).Ok?
    ensures WriteLeaves(obj, p).Ok?
    decreases |p|, 0
  {
    if |p| > 1 {
      var name := p[0].name;
      if p[0].isArray {
        assert obj[name].elems[0..] == obj[name].elems;
        WriteLeavesFromSucceed(obj[name].elems, 0, name, p[1..], f);
      } else {
        WriteLeavesSucceed(if Missing(obj, name) then map[] else obj[name].fields, p[1..], f);
      }
    }
  }

  lemma {:induction false} WriteLeavesFromSucceed(elems: seq<Json>, i: nat, name: string, p: Path, f: LeafFn)
    requires i <= |elems| && WalkEnsureEach(elems[i..], p, f).Ok?
    ensures WriteLeavesFrom(elems, i, name, p).Ok?
    decreases |p|, 1 + |elems| - i
  {
    if i < |elems| {
      assert elems[i..][1..] == elems[i + 1..];
      WriteLeavesSucceed(elems[i].fields, p, f);
      WriteLeavesFromSucceed(elems, i + 1, name, p, f);
    }
  }

  // A second default finds nothing left to do, even with another value when the first was not null.
  lemma {:induction false} DefaultAgain(obj: Fields, p: Path, v: Json, w: Json)
    requires WalkEnsure(obj, p, DefaultLeaf(v)).Ok?
    requires v.Null? ==> w.Null?
    ensures var r := WalkEnsure(obj, p, DefaultLeaf(v)).value; WalkEnsure(r, p, DefaultLeaf(w)) == Ok(r)
    decreases |p|, 0
  {
    var r := WalkEnsure(obj, p, DefaultLeaf(v)).value;
    var name := p[0].name;
    if |p| == 1 {
      assert r[name := r[name]] == r;
    } else if p[0].isArray {
      DefaultEachAgain(obj[name].elems, p[1..], v, w);
      assert r[name := r[name]] == r;
    } else {
      DefaultAgain(if Missing(obj, name) then map[] else obj[name].fields, p[1..], v, w);
      assert r[name := r[name]] == r;
    }
  }

  lemma {:induction false} DefaultEachAgain(elems: seq<Json>, p: Path, v: Json, w: Json)
    requires WalkEnsureEach(elems, p, DefaultLeaf(v)).Ok?
    requires v.Null? ==> w.Null?
    ensures var r := WalkEnsureEach(elems, p, DefaultLeaf(v)).value; WalkEnsureEach(r, p, DefaultLeaf(w)) == Ok(r)
    decreases |p|, 1 + |elems|
  {
    if elems != [] {
      DefaultAgain(elems[0].fields, p, v, w);
      DefaultEachAgain(elems[1..], p, v, w);
      var r := WalkEnsureEach(elems, p, DefaultLeaf(v)).value;
      assert r[1..] == WalkEnsureEach(elems[1..], p, DefaultLeaf(v)).value;
      assert [r[0]] + r[1..] == r;
    }
  }

  // b holds everything non-null that a holds, at the same places.
  predicate Extends(a: Json, b: Json) {
    match a
    case Null => true
    case Arr(es) => b.Arr? && |b.elems| == |es| && forall i | 0 <= i < |es| :: Extends(es[i], b.elems[i])
    case Obj(m) => b.Obj? && forall k | k in m :: k in b.fields && Extends(m[k], b.fields[k])
    case _ => a == b
  }

  lemma {:induction false} ExtendsRefl(a: Json)
    ensures Extends(a, a)
    decreases a
  {
    match a
    case Arr(es) => forall i | 0 <= i < |es| ensures Extends(es[i], es[i]) { ExtendsRefl(es[i]); }
    case Obj(m) => forall k | k in m ensures Extends(m[k], m[k]) { ExtendsRefl(m[k]); }
    case _ =>
  }

  lemma ExtendsUpdated(obj: Fields, name: string, v: Json)
    requires name in obj ==> Extends(obj[name], v)
    ensures Extends(Obj(obj), Obj(obj[name := v]))
  {
    forall k | k in obj ensures Extends(obj[k], obj[name := v][k]) { ExtendsRefl(obj[k]); }
  }

  lemma {:induction false} DefaultExtends(obj: Fields, p: Path, v: Json)
    requires WalkEnsure(obj, p, DefaultLeaf(v)).Ok?
    ensures Extends(Obj(obj), Obj(WalkEnsure(obj, p, DefaultLeaf(v)).value))
    decreases |p|, 0
  {
    var name := p[0].name;
    if |p| == 1 {
      if Missing(obj, name) { ExtendsUpdated(obj, name, v); } else { ExtendsRefl(Obj(obj)); }
    } else if p[0].isArray {
      DefaultEachExtends(obj[name].elems, p[1..], v);
      ExtendsUpdated(obj, name, Arr(WalkEnsureEach(obj[name].elems, p[1..], DefaultLeaf(v)).value));
    } else {
      var sub := if Missing(obj, name) then map[] else obj[name].fields;
      DefaultExtends(sub, p[1..], v);
      ExtendsUpdated(obj, name, Obj(WalkEnsure(sub, p[1..], DefaultLeaf(v)).value));
    }
  }

  lemma {:induction false} DefaultEachExtends(elems: seq<Json>, p: Path, v: Json)
    requires WalkEnsureEach(elems, p, DefaultLeaf(v)).Ok?
    ensures var r := WalkEnsureEach(elems, p, DefaultLeaf(v)).value;
            forall i :: 0 <= i < |elems| ==> Extends(elems[i], r[i])
    decreases |p|, 1 + |elems|
  {
    if elems != [] {
      DefaultExtends(elems[0].fields, p, v);
      DefaultEachExtends(elems[1..], p, v);
      var r := WalkEnsureEach(elems, p, DefaultLeaf(v)).value;
      forall i | 0 < i < |elems| ensures Extends(elems[i], r[i]) {
        assert elems[i] == elems[1..][i - 1] && r[i] == r[1..][i - 1];
      }
    }
  }

  lemma {:induction false} ExtendsAt(a: Json, b: Json, pos: Position)
    requires Extends(a, b) && At(a, pos).Some? && !At(a, pos).value.Null?
    ensures At(b, pos).Some? && Extends(At(a, pos).value, At(b, pos).value)
    decreases |pos|
  {
    if pos != [] {
      match pos[0]
      case Key(name) => ExtendsAt(a.fields[name], b.fields[name], pos[1..]);
      case Index(i) => ExtendsAt(a.elems[i], b.elems[i], pos[1..]);
    }
  }

  // Every listed leaf parent is an object that holds the leaf, non-null unless the default is null.
  ghost predicate Filled(j: Json, pos: Position, leaf: string, v: Json) {
    && At(j, pos).Some? && At(j, pos).value.Obj? && leaf in At(j, pos).value.fields
    && (At(j, pos).value.fields[leaf].Null? ==> v.Null?)
  }

  lemma {:induction false} DefaultFills(obj: Fields, p: Path, v: Json)
    requires WalkEnsure(obj, p, DefaultLeaf(v)).Ok? && WriteLeaves(obj, p).Ok?
    ensures var r := Obj(WalkEnsure(obj, p, DefaultLeaf(v)).value);
            forall pos :: pos in WriteLeaves(obj, p).value ==> Filled(r, pos, p[|p| - 1].name, v)
    decreases |p|, 0
  {
    var name := p[0].name;
    var r := WalkEnsure(obj, p, DefaultLeaf(v)).value;
    if |p| == 1 {
      forall pos | pos in WriteLeaves(obj, p).value
          ensures Filled(Obj(r), pos, p[|p| - 1].name, v) { assert pos == []; }
    } else if p[0].isArray {
      assert obj[name].elems[0..] == obj[name].elems && r[name].elems[0..] == r[name].elems;
      DefaultEachFills(obj[name].elems, r, 0, name, p[1..], v);
    } else {
      var sub := if Missing(obj, name) then map[] else obj[name].fields;
      DefaultFills(sub, p[1..], v);
      var inner := WriteLeaves(sub, p[1..]).value;
      forall pos | pos in WriteLeaves(obj, p).value ensures Filled(Obj(r), pos, p[|p| - 1].name, v) {
        var i :| 0 <= i < |inner| && pos == [Key(name)] + inner[i];
        assert inner[i] in inner;
        assert At(Obj(r), [Key(name)]) == Some(r[name]);
        AtBelow(Obj(r), [Key(name)], inner[i]);
      }
    }
  }

  lemma {:induction false} DefaultEachFills(elems: seq<Json>, root: Fields, i: nat, name: string, p: Path, v: Json)
    requires i <= |elems| && |p| > 0
    requires name in root && root[name].Arr? && |root[name].elems| == |elems|
    requires WalkEnsureEach(elems[i..], p, DefaultLeaf(v)) == Ok(root[name].elems[i..])
    requires WriteLeavesFrom(elems, i, name, p).Ok?
    ensures forall pos :: pos in WriteLeavesFrom(elems, i, name, p).value ==> Filled(Obj(root), pos, p[|p| - 1].name, v)
    decreases |p|, 1 + |elems| - i
  {
    if i < |elems| {
      var out := root[name].elems;
      assert elems[i..][1..] == elems[i + 1..];
      assert out[i..][1..] == out[i + 1..];
      assert WalkEnsureEach(elems[i + 1..], p, DefaultLeaf(v)) == Ok(out[i + 1..]);
      DefaultEachFills(elems, root, i + 1, name, p, v);
      DefaultFills(elems[i].fields, p, v);
      var hops := [Key(name), Index(i)];
      var inner := WriteLeaves(elems[i].fields, p).value;
      assert out[i] == out[i..][0];
      assert hops[1..] == [Index(i)] && hops[1..][1..] == [];
      assert At(Obj(root), hops) == At(root[name], hops[1..]) == At(out[i], []) == Some(out[i]);
      forall pos | pos in Below(hops, inner) ensures Filled(Obj(root), pos, p[|p| - 1].name, v) {
        var k :| 0 <= k < |inner| && pos == hops + inner[k];
        assert inner[k] in inner;
        AtBelow(Obj(root), hops, inner[k]);
      }
    }
  }

  // The whole law of the safe writer.
  lemma DefaultIsSafe(obj: Fields, p: Path, v: Json, opts: seq<Path>)
    requires WalkEnsure(obj, p, DefaultLeaf(v)).Ok?
    ensures var r := WalkEnsure(obj, p, DefaultLeaf(v)).value;
            && ReadLeaves(r, p, opts) == WriteLeaves(obj, p)
            && WriteLeaves(obj, p).Ok?
            && (forall f :: Walk(r, p, opts, f).Fail? ==> VerbFails(r, p, opts, f, Walk(r, p, opts, f).reason))
            && (forall pos :: pos in WriteLeaves(obj, p).value ==> Filled(Obj(r), pos, p[|p| - 1].name, v))
            && WalkEnsure(r, p, DefaultLeaf(v)) == Ok(r)
            && (forall pos :: At(Obj(obj), pos).Some? && !At(Obj(obj), pos).value.Null?
                 ==> At(Obj(r), pos).Some? && Extends(At(Obj(obj), pos).value, At(Obj(r), pos).value))
  {
    var r := WalkEnsure(obj, p, DefaultLeaf(v)).value;
    EnsureThenRead(obj, p, v, opts);
    WriteLeavesSucceed(obj, p, DefaultLeaf(v));
    forall f | Walk(r, p, opts, f).Fail? ensures VerbFails(r, p, opts, f, Walk(r, p, opts, f).reason) {
      WalkFailsAs(r, p, opts, f);
    }
    DefaultFills(obj, p, v);
    DefaultAgain(obj, p, v, v);
    DefaultExtends(obj, p, v);
    forall pos | At(Obj(obj), pos).Some? && !At(Obj(obj), pos).value.Null?
      ensures At(Obj(r), pos).Some? && Extends(At(Obj(obj), pos).value, At(Obj(r), pos).value)
    {
      ExtendsAt(Obj(obj), Obj(r), pos);
    }
  }
}
