/**
 Where a path leads in a body, told by places and without the walkers: the objects that hold or should
 hold its leaf, what stands in the way of a reader and of a writer, and which places an edit at the
 leaf parents can touch. The walkers of Transform are proved to go exactly there.
 */
module Places {
  import opened Json
  import opened Transform
  import opened WalkLaws

  // --- where a path leads ---

  // Nothing, or null, under that name.
  predicate Vacant(m: Fields, name: string) {
    name in m ==> m[name].Null?
  }

  predicate ObjAt(j: Json, pos: Position) {
    At(j, pos).Some? && At(j, pos).value.Obj?
  }

  function FieldsAt(j: Json, pos: Position): Fields
    requires ObjAt(j, pos)
  {
    At(j, pos).value.fields
  }

  // `pos` goes along the first d segments of p: a key for each, and an index after each that iterates.
  predicate Leads(p: Path, d: nat, pos: Position)
    decreases d
  {
    if d == 0 then pos == []
    else
      && p != [] && pos != [] && pos[0] == Key(p[0].name)
      && if p[0].isArray then |pos| > 1 && pos[1].Index? && Leads(p[1..], d - 1, pos[2..])
         else Leads(p[1..], d - 1, pos[1..])
  }

  predicate LeafParent(j: Json, p: Path, pos: Position) {
    p != [] && Leads(p, |p| - 1, pos) && ObjAt(j, pos)
  }

  function NamesOf(p: Path): seq<string> {
    seq(|p|, i requires 0 <= i < |p| => p[i].name)
  }

  // A stanza before the i-th op names a prefix of p.
  ghost predicate Excused(ops: seq<Op>, i: nat, p: Path) {
    exists j :: 0 <= j < i && j < |ops| && ops[j].Optionalize? && NamesOf(ops[j].field) <= NamesOf(p)
  }

  // What stops a reader at object m with p still to walk.
  ghost function Obstacle(m: Fields, p: Path, ops: seq<Op>, i: nat): Option<Failure>
    requires |p| > 1
  {
    var name := p[0].name;
    if Vacant(m, name) then if Excused(ops, i, p) then None else Some(Absent)
    else if Steppable(m[name], p[0]) then None
    else Some(WrongShape)
  }

  predicate Steppable(v: Json, s: Segment) {
    if s.isArray then v.Arr? && forall k | 0 <= k < |v.elems| :: v.elems[k].Obj? else v.Obj?
  }

  ghost predicate ObstacleAt(j: Json, p: Path, d: nat, pos: Position, ops: seq<Op>, i: nat, e: Failure) {
    Leads(p, d, pos) && d + 1 < |p| && ObjAt(j, pos) && Obstacle(FieldsAt(j, pos), p[d..], ops, i) == Some(e)
  }

  // A writer creates the objects that are missing, but no array.
  ghost function WriteObstacle(m: Fields, p: Path): Option<Failure>
    requires |p| > 1
  {
    var name := p[0].name;
    if Vacant(m, name) then if Iterates(p) then Some(Absent) else None
    else if Steppable(m[name], p[0]) then None
    else Some(WrongShape)
  }

  ghost predicate Iterates(p: Path) {
    exists e :: 0 <= e && e + 1 < |p| && p[e].isArray
  }

  ghost predicate WriteObstacleAt(j: Json, p: Path, d: nat, pos: Position, e: Failure) {
    Leads(p, d, pos) && d + 1 < |p| && ObjAt(j, pos) && WriteObstacle(FieldsAt(j, pos), p[d..]) == Some(e)
  }

  // A leaf parent of a writer: every element it lies in is there, the objects need not be.
  predicate WriteParent(j: Json, p: Path, pos: Position) {
    p != [] && Leads(p, |p| - 1, pos) && forall n | 0 <= n < |pos| && pos[n].Index? :: At(j, pos[..n + 1]).Some?
  }

  function FieldsOr(j: Json, pos: Position): Fields {
    if ObjAt(j, pos) then FieldsAt(j, pos) else map[]
  }

  // Nothing moves but what is at, above or below one of the leaf parents.
  ghost predicate Untouched(before: Json, after: Json, leaves: iset<Position>) {
    forall pos :: (forall l :: l in leaves ==> !Comparable(l, pos)) ==> At(after, pos) == At(before, pos)
  }

  // --- coverage ---

  // `opts` holds the stanzas before the i-th op.
  ghost predicate Collected(ops: seq<Op>, i: nat, opts: seq<Path>) {
    forall q :: q in opts <==> exists j :: 0 <= j < i && j < |ops| && ops[j] == Optionalize(q)
  }

  lemma PrefixByNames(p: Path, q: Path)
    ensures HasPrefixByName(p, q) <==> NamesOf(q) <= NamesOf(p)
  {
    if NamesOf(q) <= NamesOf(p) {
      forall i | 0 <= i < |q| ensures q[i].name == p[i].name {
        assert NamesOf(q)[i] == NamesOf(p)[i];
      }
    }
  }

  // The walker's set of stanzas excuses a path exactly when one of them names a prefix of it.
  lemma CoversExactly(ops: seq<Op>, i: nat, opts: seq<Path>, p: Path)
    requires Collected(ops, i, opts)
    ensures Covers(opts, p) <==> Excused(ops, i, p)
  {
    if Covers(opts, p) {
      var n :| 0 <= n < |opts| && HasPrefixByName(p, opts[n]);
      assert opts[n] in opts;
      PrefixByNames(p, opts[n]);
    }
    if Excused(ops, i, p) {
      var j :| 0 <= j < i && j < |ops| && ops[j].Optionalize? && NamesOf(ops[j].field) <= NamesOf(p);
      assert ops[j] == Optionalize(ops[j].field);
      assert ops[j].field in opts;
      PrefixByNames(p, ops[j].field);
    }
  }

  lemma CollectedNext(ops: seq<Op>, i: nat, opts: seq<Path>)
    requires i < |ops| && Collected(ops, i, opts)
    ensures Collected(ops, i + 1, opts + Tolerated(ops[i]))
  {
    forall q
      ensures q in opts + Tolerated(ops[i]) <==> exists j :: 0 <= j < i + 1 && j < |ops| && ops[j] == Optionalize(q)
    {
      if ops[i] == Optionalize(q) { assert q in Tolerated(ops[i]); }
    }
  }

  // --- the read-mode listing ---

  lemma AtHop(j: Json, hop: Hop, pos: Position)
    ensures At(j, [hop] + pos)
         == match hop
            case Key(name) => if j.Obj? && name in j.fields then At(j.fields[name], pos) else None
            case Index(i) => if j.Arr? && i < |j.elems| then At(j.elems[i], pos) else None
  {
    assert ([hop] + pos)[1..] == pos;
  }

  lemma {:induction false} FirstRefusal(elems: seq<Json>, k: nat, name: string, p: Path, opts: seq<Path>)
      returns (n: nat)
    requires k <= |elems| && ReadLeavesFrom(elems, k, name, p, opts).Fail?
    ensures n < |elems|
    ensures var e := ReadLeavesFrom(elems, k, name, p, opts).reason;
            if elems[n].Obj? then ReadLeaves(elems[n].fields, p, opts) == Fail(e) else e == WrongShape
    decreases |elems| - k
  {
    if !elems[k].Obj? || ReadLeaves(elems[k].fields, p, opts).Fail? {
      n := k;
    } else {
      n := FirstRefusal(elems, k + 1, name, p, opts);
    }
  }

  // A listing that fails met an obstacle of that kind.
  lemma {:induction false} Obstructed(obj: Fields, p: Path, opts: seq<Path>, ops: seq<Op>, i: nat)
    returns (d: nat, pos: Position)
    requires Collected(ops, i, opts) && p != [] && ReadLeaves(obj, p, opts).Fail?
    ensures ObstacleAt(Obj(obj), p, d, pos, ops, i, ReadLeaves(obj, p, opts).reason)
    decreases |p|
  {
    var name := p[0].name;
    CoversExactly(ops, i, opts, p);
    d, pos := 0, [];
    if !Missing(obj, name) {
      if p[0].isArray && obj[name].Arr? {
        var n := FirstRefusal(obj[name].elems, 0, name, p[1..], opts);
        if obj[name].elems[n].Obj? {
          d, pos := Obstructed(obj[name].elems[n].fields, p[1..], opts, ops, i);
          ElementAt(obj, name, n, pos);
          d, pos := Deeper(p, d, [Key(name), Index(n)], pos);
        }
      } else if !p[0].isArray && obj[name].Obj? {
        d, pos := Obstructed(obj[name].fields, p[1..], opts, ops, i);
        d, pos := Deeper(p, d, [Key(name)], pos);
      }
    }
  }

  // One segment more at the front.
  lemma Deeper(p: Path, d: nat, hops: Position, pos: Position) returns (d': nat, pos': Position)
    requires p != [] && Leads(p[1..], d, pos) && d < |p|
    requires hops == [Key(p[0].name)] + if p[0].isArray then [Index(ElementOf(hops))] else []
    ensures d' == d + 1 && pos' == hops + pos && Leads(p, d', pos') && p[1..][d..] == p[d'..] && pos'[|hops|..] == pos
    ensures pos'[1..] == hops[1..] + pos
  {
    d', pos' := d + 1, hops + pos;
  }

  // One segment less.
  lemma Shallower(obj: Fields, p: Path, d: nat, pos: Position) returns (v: Json, rest: Position)
    requires 0 < d < |p| && Leads(p, d, pos) && ObjAt(Obj(obj), pos)
    ensures !Missing(obj, p[0].name)
    ensures if p[0].isArray
            then && obj[p[0].name].Arr? && |pos| > 1 && pos[1].Index? && pos[1].i < |obj[p[0].name].elems|
                 && v == obj[p[0].name].elems[pos[1].i] && pos == [Key(p[0].name), Index(pos[1].i)] + rest
            else v == obj[p[0].name] && pos == [Key(p[0].name)] + rest
    ensures v.Obj? && Leads(p[1..], d - 1, rest) && At(v, rest) == At(Obj(obj), pos) && p[1..][d - 1..] == p[d..]
  {
    var name := p[0].name;
    assert name in obj && At(Obj(obj), pos) == At(obj[name], pos[1..]);
    if p[0].isArray {
      rest := pos[2..];
      assert pos[1..][0] == pos[1];
      assert pos[1..][1..] == rest;
      v := obj[name].elems[pos[1].i];
    } else {
      rest := pos[1..];
      v := obj[name];
    }
    if d > 1 { assert rest[0].Key?; }
  }

  function ElementOf(pos: Position): nat {
    if |pos| > 1 && pos[1].Index? then pos[1].i else 0
  }

  // A listing that succeeds met none.
  lemma {:induction false} Unobstructed(obj: Fields, p: Path, opts: seq<Path>, ops: seq<Op>, i: nat, d: nat,
      pos: Position, e: Failure)
    requires Collected(ops, i, opts) && ReadLeaves(obj, p, opts).Ok?
    ensures !ObstacleAt(Obj(obj), p, d, pos, ops, i, e)
    decreases |p|
  {
    if Leads(p, d, pos) && d + 1 < |p| && ObjAt(Obj(obj), pos) {
      var name := p[0].name;
      if !Missing(obj, name) && p[0].isArray { ReadLeavesFromMembers(obj[name].elems, 0, name, p[1..], opts); }
      if d == 0 {
        CoversExactly(ops, i, opts, p);
        assert p[0..] == p;
      } else {
        var v, rest := Shallower(obj, p, d, pos);
        Unobstructed(v.fields, p[1..], opts, ops, i, d - 1, rest, e);
      }
    }
  }

  // The listing is the set of places the path leads to.
  lemma {:induction false} ListedExactly(obj: Fields, p: Path, opts: seq<Path>, pos: Position)
    requires ReadLeaves(obj, p, opts).Ok?
    ensures pos in ReadLeaves(obj, p, opts).value <==> LeafParent(Obj(obj), p, pos)
    decreases |p|, 1
  {
    var leaves := ReadLeaves(obj, p, opts).value;
    if |p| == 1 {
      assert leaves == [[]] && [] in leaves;
    } else {
      if pos in leaves { ListedLeads(obj, p, opts, pos); }
      if LeafParent(Obj(obj), p, pos) {
        var name := p[0].name;
        var v, rest := Shallower(obj, p, |p| - 1, pos);
        if p[0].isArray {
          ReadLeavesFromMembers(obj[name].elems, 0, name, p[1..], opts);
          ListedExactly(v.fields, p[1..], opts, rest);
        } else {
          ListedExactly(v.fields, p[1..], opts, rest);
          InBelow([Key(name)], ReadLeaves(v.fields, p[1..], opts).value, rest);
        }
      }
    }
  }

  lemma Hung(p: Path, hops: Position, l: Position, pos: Position)
    requires |p| > 1 && Leads(p[1..], |p| - 2, l) && pos == hops + l
    requires hops == [Key(p[0].name)] + if p[0].isArray then [Index(ElementOf(hops))] else []
    ensures Leads(p, |p| - 1, pos) && pos[1..] == hops[1..] + l && pos[0] == Key(p[0].name)
  {
    var _, _ := Deeper(p, |p| - 2, hops, l);
  }

  lemma {:induction false} ListedLeads(obj: Fields, p: Path, opts: seq<Path>, pos: Position)
    requires |p| > 1 && ReadLeaves(obj, p, opts).Ok? && pos in ReadLeaves(obj, p, opts).value
    ensures LeafParent(Obj(obj), p, pos)
    decreases |p|, 0
  {
    var name := p[0].name;
    if p[0].isArray {
      var k, l := ArrayLeaf(obj[name].elems, name, p[1..], opts, pos);
      ListedExactly(obj[name].elems[k].fields, p[1..], opts, l);
      ElementAt(obj, name, k, l);
      Hung(p, [Key(name), Index(k)], l, pos);
    } else {
      var l := BelowMember([Key(name)], ReadLeaves(obj[name].fields, p[1..], opts).value, pos);
      ListedExactly(obj[name].fields, p[1..], opts, l);
      Hung(p, [Key(name)], l, pos);
    }
  }

  // --- the write-mode walk ---

  // A default never refuses an object, so only an obstacle stops it.
  lemma {:induction false} WriteRefusal(elems: seq<Json>, p: Path, v: Json) returns (n: nat)
    requires WalkEnsureEach(elems, p, DefaultLeaf(v)).Fail?
    ensures n < |elems|
    ensures var e := WalkEnsureEach(elems, p, DefaultLeaf(v)).reason;
            if elems[n].Obj? then WalkEnsure(elems[n].fields, p, DefaultLeaf(v)) == Fail(e) else e == WrongShape
    decreases |elems|
  {
    if !elems[0].Obj? || WalkEnsure(elems[0].fields, p, DefaultLeaf(v)).Fail? {
      n := 0;
    } else {
      n := WriteRefusal(elems[1..], p, v);
      n := n + 1;
    }
  }

  lemma {:induction false} WriteEachPointwise(elems: seq<Json>, p: Path, v: Json)
    requires WalkEnsureEach(elems, p, DefaultLeaf(v)).Ok?
    ensures forall k :: 0 <= k < |elems| ==>
              && elems[k].Obj? && WalkEnsureEach(elems, p, DefaultLeaf(v)).value[k].Obj?
              && WalkEnsure(elems[k].fields, p, DefaultLeaf(v))
                 == Ok(WalkEnsureEach(elems, p, DefaultLeaf(v)).value[k].fields)
    decreases |elems|
  {
    if elems != [] {
      WriteEachPointwise(elems[1..], p, v);
      var r := WalkEnsureEach(elems, p, DefaultLeaf(v)).value;
      forall k | 0 < k < |elems|
        ensures elems[k].Obj? && r[k].Obj? && WalkEnsure(elems[k].fields, p, DefaultLeaf(v)) == Ok(r[k].fields)
      {
        assert elems[k] == elems[1..][k - 1] && r[k] == r[1..][k - 1];
      }
    }
  }

  // Below a new object every object is created, and no array.
  lemma {:induction false} FreshWrite(p: Path, v: Json)
    requires p != []
    ensures var r := WalkEnsure(map[], p, DefaultLeaf(v)); if Iterates(p) then r == Fail(Absent) else r.Ok?
    decreases |p|
  {
    if |p| > 1 {
      FreshWrite(p[1..], v);
      assert forall e :: 0 < e < |p| ==> p[e] == p[1..][e - 1];
      if !p[0].isArray && Iterates(p) {
        var e :| 0 <= e && e + 1 < |p| && p[e].isArray;
        assert p[1..][e - 1].isArray;
      }
    }
  }

  lemma {:induction false} WriteObstructed(obj: Fields, p: Path, v: Json) returns (d: nat, pos: Position)
    requires p != [] && WalkEnsure(obj, p, DefaultLeaf(v)).Fail?
    ensures WriteObstacleAt(Obj(obj), p, d, pos, WalkEnsure(obj, p, DefaultLeaf(v)).reason)
    decreases |p|
  {
    var name := p[0].name;
    d, pos := 0, [];
    assert p[0..] == p;
    if Missing(obj, name) {
      MissingWrite(p, v);
    } else if p[0].isArray && obj[name].Arr? {
      var n := WriteRefusal(obj[name].elems, p[1..], v);
      if obj[name].elems[n].Obj? {
        d, pos := WriteObstructed(obj[name].elems[n].fields, p[1..], v);
        ElementAt(obj, name, n, pos);
        d, pos := Deeper(p, d, [Key(name), Index(n)], pos);
      }
    } else if !p[0].isArray && obj[name].Obj? {
      d, pos := WriteObstructed(obj[name].fields, p[1..], v);
      d, pos := Deeper(p, d, [Key(name)], pos);
    }
  }

  lemma MissingWrite(p: Path, v: Json)
    requires |p| > 1
    ensures Iterates(p) <==> p[0].isArray || WalkEnsure(map[], p[1..], DefaultLeaf(v)).Fail?
    ensures !p[0].isArray && WalkEnsure(map[], p[1..], DefaultLeaf(v)).Fail? ==>
              WalkEnsure(map[], p[1..], DefaultLeaf(v)) == Fail(Absent)
  {
    FreshWrite(p, v);
    FreshWrite(p[1..], v);
  }

  lemma {:induction false} WriteUnobstructed(obj: Fields, p: Path, v: Json, d: nat, pos: Position, e: Failure)
    requires WalkEnsure(obj, p, DefaultLeaf(v)).Ok?
    ensures !WriteObstacleAt(Obj(obj), p, d, pos, e)
    decreases |p|
  {
    if Leads(p, d, pos) && d + 1 < |p| && ObjAt(Obj(obj), pos) {
      var name := p[0].name;
      if Missing(obj, name) { MissingWrite(p, v); }
      else if p[0].isArray { WriteEachPointwise(obj[name].elems, p[1..], v); }
      if d == 0 {
        assert p[0..] == p;
      } else {
        var below, rest := Shallower(obj, p, d, pos);
        WriteUnobstructed(below.fields, p[1..], v, d - 1, rest, e);
      }
    }
  }

  // Where a writer's leaf parent lies below the first segment.
  ghost predicate LiesBelow(obj: Fields, p: Path, pos: Position, rest: Position)
    requires |p| > 1
  {
    var name := p[0].name;
    if p[0].isArray
    then && name in obj && obj[name].Arr? && |pos| > 1 && pos[1].Index? && pos[1].i < |obj[name].elems|
         && pos == [Key(name), Index(pos[1].i)] + rest && WriteParent(obj[name].elems[pos[1].i], p[1..], rest)
    else && pos == [Key(name)] + rest && (name in obj ==> WriteParent(obj[name], p[1..], rest))
         && (Missing(obj, name) ==> WriteParent(Obj(map[]), p[1..], rest))
  }

  lemma WriteParentBelow(obj: Fields, p: Path, pos: Position) returns (rest: Position)
    requires |p| > 1 && WriteParent(Obj(obj), p, pos)
    ensures LiesBelow(obj, p, pos, rest)
  {
    rest := if p[0].isArray then pos[2..] else pos[1..];
    if p[0].isArray { BelowElement(obj, p, pos, rest); } else { BelowField(obj, p, pos, rest); }
  }

  lemma BelowElement(obj: Fields, p: Path, pos: Position, rest: Position)
    requires |p| > 1 && p[0].isArray && WriteParent(Obj(obj), p, pos) && |pos| > 1 && rest == pos[2..]
    ensures LiesBelow(obj, p, pos, rest)
  {
    var name := p[0].name;
    assert pos[1].Index? && At(Obj(obj), pos[..1 + 1]).Some?;
    assert pos[..1 + 1] == [Key(name)] + ([pos[1]] + []);
    AtHop(Obj(obj), Key(name), [pos[1]] + []);
    AtHop(obj[name], pos[1], []);
    var v := obj[name].elems[pos[1].i];
    forall n | 0 <= n < |rest| && rest[n].Index? ensures At(v, rest[..n + 1]).Some? {
      assert pos[n + 2] == rest[n] && pos[..n + 2 + 1] == [Key(name), Index(pos[1].i)] + rest[..n + 1];
      ElementAt(obj, name, pos[1].i, rest[..n + 1]);
    }
  }

  lemma BelowField(obj: Fields, p: Path, pos: Position, rest: Position)
    requires |p| > 1 && !p[0].isArray && WriteParent(Obj(obj), p, pos) && pos != [] && rest == pos[1..]
    ensures LiesBelow(obj, p, pos, rest)
  {
    var name := p[0].name;
    assert pos == [Key(name)] + rest;
    forall n | 0 <= n < |rest| && rest[n].Index? ensures name in obj && At(obj[name], rest[..n + 1]).Some? {
      assert pos[n + 1] == rest[n] && pos[..n + 1 + 1] == [Key(name)] + rest[..n + 1];
      AtHop(Obj(obj), Key(name), rest[..n + 1]);
    }
    if Missing(obj, name) {
      forall n | 0 <= n < |rest| ensures !rest[n].Index? {
        assert rest[..n + 1] != [];
      }
    }
  }

  lemma WriteParentAbove(obj: Fields, p: Path, hops: Position, v: Json, rest: Position)
    requires |p| > 1 && WriteParent(v, p[1..], rest)
    requires hops == [Key(p[0].name)] + if p[0].isArray then [Index(ElementOf(hops))] else []
    requires At(Obj(obj), hops) == Some(v) || (v == Obj(map[]) && !p[0].isArray)
    ensures WriteParent(Obj(obj), p, hops + rest)
  {
    var pos := hops + rest;
    Hung(p, hops, rest, pos);
    forall n | 0 <= n < |pos| && pos[n].Index? ensures At(Obj(obj), pos[..n + 1]).Some? {
      HopThere(obj, p, hops, v, rest, n);
    }
  }

  lemma HopThere(obj: Fields, p: Path, hops: Position, v: Json, rest: Position, n: nat)
    requires |p| > 1 && WriteParent(v, p[1..], rest) && n < |hops + rest| && (hops + rest)[n].Index?
    requires |hops| > 0 && hops[0].Key? && |hops| <= 2
    requires At(Obj(obj), hops) == Some(v) || (v == Obj(map[]) && |hops| == 1)
    ensures At(Obj(obj), (hops + rest)[..n + 1]).Some?
  {
    if n < |hops| {
      assert (hops + rest)[..n + 1] == hops;
    } else {
      var m := n - |hops|;
      assert rest[m].Index? && At(v, rest[..m + 1]).Some?;
      assert (hops + rest)[..n + 1] == hops + rest[..m + 1];
      NothingInEmpty(rest[..m + 1]);
      if At(Obj(obj), hops) == Some(v) { AtBelow(Obj(obj), hops, rest[..m + 1]); }
    }
  }

  lemma NothingInEmpty(pos: Position)
    requires pos != []
    ensures At(Obj(map[]), pos).None?
  {
  }

  // What a default makes of the object that should hold its leaf.
  function Filled(m: Fields, leaf: string, v: Json): Fields {
    if Missing(m, leaf) then m[leaf := v] else m
  }

  // At each of its leaf parents, new ones included, the default is set if nothing is there.
  lemma {:induction false} WriteAt(obj: Fields, p: Path, v: Json, pos: Position)
    requires WalkEnsure(obj, p, DefaultLeaf(v)).Ok? && WriteParent(Obj(obj), p, pos)
    ensures At(Obj(WalkEnsure(obj, p, DefaultLeaf(v)).value), pos)
         == Some(Obj(Filled(FieldsOr(Obj(obj), pos), Leaf(p), v)))
    decreases |p|
  {
    var name := p[0].name;
    var r := WalkEnsure(obj, p, DefaultLeaf(v)).value;
    if |p| > 1 {
      var rest := WriteParentBelow(obj, p, pos);
      if p[0].isArray {
        var k := pos[1].i;
        WriteEachPointwise(obj[name].elems, p[1..], v);
        WriteAt(obj[name].elems[k].fields, p[1..], v, rest);
        ElementAt(obj, name, k, rest);
        ElementAt(r, name, k, rest);
      } else {
        assert pos[1..] == rest;
        var sub := if Missing(obj, name) then map[] else obj[name].fields;
        WriteAt(sub, p[1..], v, rest);
        if Missing(obj, name) { NothingBelow(obj, name, rest); }
      }
    }
  }

  // Below a missing field there is as much as in an empty object.
  lemma NothingBelow(obj: Fields, name: string, rest: Position)
    requires Missing(obj, name)
    ensures FieldsOr(Obj(obj), [Key(name)] + rest) == map[] == FieldsOr(Obj(map[]), rest)
    ensures rest != [] ==> At(Obj(obj), [Key(name)] + rest).None? && At(Obj(map[]), rest).None?
  {
    assert ([Key(name)] + rest)[1..] == rest;
    assert At(Obj(obj), [Key(name)] + rest) == if name in obj then At(Null, rest) else None;
    assert At(Null, rest) == if rest == [] then Some(Null) else None;
    assert At(Obj(map[]), rest) == if rest == [] then Some(Obj(map[])) else None;
  }

  // A new object always gets its leaf.
  lemma {:induction false} FreshParent(p: Path, v: Json) returns (pos: Position)
    requires WalkEnsure(map[], p, DefaultLeaf(v)).Ok?
    ensures WriteParent(Obj(map[]), p, pos)
    decreases |p|
  {
    pos := [];
    if |p| > 1 {
      pos := FreshParent(p[1..], v);
      WriteParentAbove(map[], p, [Key(p[0].name)], Obj(map[]), pos);
      pos := [Key(p[0].name)] + pos;
    }
  }

  ghost predicate Apart(j: Json, p: Path, pos: Position) {
    forall l :: WriteParent(j, p, l) ==> !Comparable(l, pos)
  }

  // Nothing else moves.
  lemma {:induction false} WriteFrame(obj: Fields, p: Path, v: Json, pos: Position)
    requires WalkEnsure(obj, p, DefaultLeaf(v)).Ok? && Apart(Obj(obj), p, pos)
    ensures At(Obj(WalkEnsure(obj, p, DefaultLeaf(v)).value), pos) == At(Obj(obj), pos)
    decreases |p|, 1
  {
    if |p| == 1 {
      assert WriteParent(Obj(obj), p, []) && Comparable([], pos);
    } else if pos == [] || pos[0] == Key(p[0].name) {
      if p[0].isArray { WriteArrayFrame(obj, p, v, pos); } else { WriteFieldFrame(obj, p, v, pos); }
    }
  }

  lemma {:induction false} WriteFieldFrame(obj: Fields, p: Path, v: Json, pos: Position)
    requires |p| > 1 && !p[0].isArray && (pos == [] || pos[0] == Key(p[0].name))
    requires WalkEnsure(obj, p, DefaultLeaf(v)).Ok? && Apart(Obj(obj), p, pos)
    ensures At(Obj(WalkEnsure(obj, p, DefaultLeaf(v)).value), pos) == At(Obj(obj), pos)
    decreases |p|, 0
  {
    var name := p[0].name;
    var rest := if pos == [] then [] else pos[1..];
    if Missing(obj, name) {
      var l := FreshParent(p[1..], v);
      WriteParentAbove(obj, p, [Key(name)], Obj(map[]), l);
      assert !Comparable([Key(name)] + l, pos);
      forall m | WriteParent(Obj(map[]), p[1..], m) ensures !Comparable(m, rest) {
        WriteParentAbove(obj, p, [Key(name)], Obj(map[]), m);
        assert !Comparable([Key(name)] + m, pos);
      }
      WriteFrame(map[], p[1..], v, rest);
      assert pos == [Key(name)] + rest;
      NothingBelow(obj, name, rest);
    } else {
      forall m | WriteParent(obj[name], p[1..], m) ensures !Comparable(m, rest) {
        WriteParentAbove(obj, p, [Key(name)], obj[name], m);
        assert !Comparable([Key(name)] + m, pos);
      }
      WriteFrame(obj[name].fields, p[1..], v, rest);
      if pos == [] { assert obj[name := obj[name]] == obj; }
    }
  }

  lemma {:induction false} WriteArrayFrame(obj: Fields, p: Path, v: Json, pos: Position)
    requires |p| > 1 && p[0].isArray && (pos == [] || pos[0] == Key(p[0].name))
    requires WalkEnsure(obj, p, DefaultLeaf(v)).Ok? && Apart(Obj(obj), p, pos)
    ensures At(Obj(WalkEnsure(obj, p, DefaultLeaf(v)).value), pos) == At(Obj(obj), pos)
    decreases |p|, 0
  {
    var name, es := p[0].name, obj[p[0].name].elems;
    var r := WalkEnsure(obj, p, DefaultLeaf(v)).value;
    WriteEachPointwise(es, p[1..], v);
    if |pos| > 1 && pos[1].Index? && pos[1].i < |es| {
      var k, rest := pos[1].i, pos[2..];
      assert pos == [Key(name), Index(k)] + rest;
      ElementApart(obj, p, pos, k, rest);
      WriteFrame(es[k].fields, p[1..], v, rest);
      ElementAt(obj, name, k, rest);
      ElementAt(r, name, k, rest);
    } else if |pos| <= 1 {
      forall k | 0 <= k < |es| ensures es[k] == r[name].elems[k] {
        ElementApart(obj, p, pos, k, []);
        WriteFrame(es[k].fields, p[1..], v, []);
      }
      assert r[name].elems == es;
      assert r == obj;
    }
  }

  lemma ElementApart(obj: Fields, p: Path, pos: Position, k: nat, rest: Position)
    requires |p| > 1 && p[0].isArray && p[0].name in obj && obj[p[0].name].Arr? && k < |obj[p[0].name].elems|
    requires pos == [Key(p[0].name), Index(k)] + rest || (rest == [] && pos <= [Key(p[0].name)])
    requires Apart(Obj(obj), p, pos)
    ensures Apart(obj[p[0].name].elems[k], p[1..], rest)
  {
    var name, e := p[0].name, obj[p[0].name].elems[k];
    forall m | WriteParent(e, p[1..], m) ensures !Comparable(m, rest) {
      ElementAt(obj, name, k, []);
      assert [Key(name), Index(k)] + [] == [Key(name), Index(k)];
      WriteParentAbove(obj, p, [Key(name), Index(k)], e, m);
      assert !Comparable([Key(name), Index(k)] + m, pos);
    }
  }

  // --- a tree is determined by what stands at its places ---

  // Nothing on both sides, the same kind of collection, or the same scalar.
  predicate Alike(x: Option<Json>, y: Option<Json>) {
    match (x, y)
    case (Some(Obj(_)), Some(Obj(_))) => true
    case (Some(Arr(_)), Some(Arr(_))) => true
    case _ => x == y
  }

  lemma {:induction false} AlikeIsEqual(a: Json, b: Json)
    requires forall pos :: Alike(At(a, pos), At(b, pos))
    ensures a == b
    decreases a
  {
    assert Alike(At(a, []), At(b, []));
    match a
    case Obj(m) =>
      forall k ensures k in m <==> k in b.fields {
        AtHop(a, Key(k), []);
        AtHop(b, Key(k), []);
        assert Alike(At(a, [Key(k)] + []), At(b, [Key(k)] + []));
      }
      forall k | k in m ensures m[k] == b.fields[k] {
        forall pos ensures Alike(At(m[k], pos), At(b.fields[k], pos)) {
          AtHop(a, Key(k), pos);
          AtHop(b, Key(k), pos);
        }
        AlikeIsEqual(m[k], b.fields[k]);
      }
      assert m == b.fields;
    case Arr(es) =>
      SameLength(es, b.elems);
      forall i | 0 <= i < |es| ensures es[i] == b.elems[i] {
        forall pos ensures Alike(At(es[i], pos), At(b.elems[i], pos)) {
          AtHop(a, Index(i), pos);
          AtHop(b, Index(i), pos);
        }
        AlikeIsEqual(es[i], b.elems[i]);
      }
      assert es == b.elems;
    case _ =>
  }

  lemma SameLength(es: seq<Json>, es': seq<Json>)
    requires forall pos :: Alike(At(Arr(es), pos), At(Arr(es'), pos))
    ensures |es| == |es'|
  {
    forall i: nat ensures At(Arr(es), [Index(i)] + []).Some? <==> i < |es|
        ensures At(Arr(es'), [Index(i)] + []).Some? <==> i < |es'| {
      AtHop(Arr(es), Index(i), []);
      AtHop(Arr(es'), Index(i), []);
    }
    assert Alike(At(Arr(es), [Index(|es|)] + []), At(Arr(es'), [Index(|es|)] + []));
    assert Alike(At(Arr(es), [Index(|es'|)] + []), At(Arr(es'), [Index(|es'|)] + []));
  }

  lemma Determined(before: Json, a: Json, b: Json, leaves: iset<Position>)
    requires forall l :: l in leaves ==> ObjAt(a, l) && At(a, l) == At(b, l)
    requires Untouched(before, a, leaves) && Untouched(before, b, leaves)
    ensures a == b
  {
    forall pos ensures Alike(At(a, pos), At(b, pos)) {
      if l :| l in leaves && Comparable(l, pos) {
        if l <= pos { AlikeBelow(a, b, l, pos); } else { AlikeAbove(a, b, l, pos); }
      } else {
        assert At(a, pos) == At(before, pos) == At(b, pos);
      }
    }
    AlikeIsEqual(a, b);
  }

  lemma AlikeBelow(a: Json, b: Json, l: Position, pos: Position)
    requires l <= pos && At(a, l).Some? && At(a, l) == At(b, l)
    ensures Alike(At(a, pos), At(b, pos))
  {
    assert pos == l + pos[|l|..];
    AtBelow(a, l, pos[|l|..]);
    AtBelow(b, l, pos[|l|..]);
  }

  lemma AlikeAbove(a: Json, b: Json, l: Position, pos: Position)
    requires pos <= l && pos != l && At(a, l).Some? && At(b, l).Some?
    ensures Alike(At(a, pos), At(b, pos))
  {
    assert l == pos + l[|pos|..];
    OnTheWay(a, pos, l[|pos|..]);
    OnTheWay(b, pos, l[|pos|..]);
  }

  lemma {:induction false} OnTheWay(a: Json, pos: Position, rest: Position)
    requires rest != [] && At(a, pos + rest).Some?
    ensures At(a, pos).Some? && if rest[0].Key? then At(a, pos).value.Obj? else At(a, pos).value.Arr?
    decreases |pos|
  {
    if pos == [] {
      assert pos + rest == rest;
    } else {
      assert (pos + rest)[1..] == pos[1..] + rest;
      OnTheWay(if pos[0].Key? then a.fields[pos[0].name] else a.elems[pos[0].i], pos[1..], rest);
    }
  }
}
