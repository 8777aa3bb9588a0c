/**
 Path soundness for whole op lists (internal/transform/transform.go, apply). The loader checks every
 path against the descriptor, but only the first op is sure to see a body of that shape: which ops can
 put something of another shape on a path that was clear before, and when none of a list does.
 */
module ListSoundness {
  import opened Json
  import opened Transform
  import opened WalkLaws
  import opened PathCheck

  // Nothing on the path has a shape the path does not expect.
  ghost predicate Clear(obj: Fields, p: Path)
    decreases |p|
  {
    |p| <= 1 || Missing(obj, p[0].name) ||
    if p[0].isArray then
      obj[p[0].name].Arr? &&
      forall i :: 0 <= i < |obj[p[0].name].elems| ==>
        obj[p[0].name].elems[i].Obj? && Clear(obj[p[0].name].elems[i].fields, p[1..])
    else obj[p[0].name].Obj? && Clear(obj[p[0].name].fields, p[1..])
  }

  lemma {:induction false} ClearReads(obj: Fields, p: Path, opts: seq<Path>)
    requires Clear(obj, p) && |p| > 0
    ensures OnlyAbsence(ReadLeaves(obj, p, opts))
    decreases |p|, 0
  {
    if |p| > 1 && !Missing(obj, p[0].name) {
      if p[0].isArray {
        ClearReadsFrom(obj[p[0].name].elems, 0, p[0].name, p[1..], opts);
      } else {
        ClearReads(obj[p[0].name].fields, p[1..], opts);
      }
    }
  }

  lemma {:induction false} ClearReadsFrom(elems: seq<Json>, i: nat, name: string, p: Path, opts: seq<Path>)
    requires i <= |elems| && |p| > 0
    requires forall k :: 0 <= k < |elems| ==> elems[k].Obj? && Clear(elems[k].fields, p)
    ensures OnlyAbsence(ReadLeavesFrom(elems, i, name, p, opts))
    decreases |p|, 1 + |elems| - i
  {
    if i < |elems| {
      ClearReads(elems[i].fields, p, opts);
      ClearReadsFrom(elems, i + 1, name, p, opts);
    }
  }

  ghost predicate CoversAll(opts: seq<Path>) {
    forall p :: Covers(opts, p)
  }

  // Under an optionalize set that covers every path, a clash cannot hide behind an absence.
  lemma {:induction false} ListedIsClear(obj: Fields, p: Path, opts: seq<Path>)
    requires |p| > 0 && CoversAll(opts) && OnlyAbsence(ReadLeaves(obj, p, opts))
    ensures Clear(obj, p) && ReadLeaves(obj, p, opts).Ok?
    decreases |p|, 0
  {
    if |p| > 1 && !Missing(obj, p[0].name) {
      if p[0].isArray {
        ListedFromIsClear(obj[p[0].name].elems, 0, p[0].name, p[1..], opts);
      } else {
        ListedIsClear(obj[p[0].name].fields, p[1..], opts);
      }
    }
  }

  lemma {:induction false} ListedFromIsClear(elems: seq<Json>, i: nat, name: string, p: Path, opts: seq<Path>)
    requires i <= |elems| && |p| > 0 && CoversAll(opts) && OnlyAbsence(ReadLeavesFrom(elems, i, name, p, opts))
    ensures forall k :: i <= k < |elems| ==> elems[k].Obj? && Clear(elems[k].fields, p)
    ensures ReadLeavesFrom(elems, i, name, p, opts).Ok?
    decreases |p|, 1 + |elems| - i
  {
    if i < |elems| {
      ListedIsClear(elems[i].fields, p, opts);
      ListedFromIsClear(elems, i + 1, name, p, opts);
    }
  }

  lemma Everything() returns (opts: seq<Path>)
    ensures CoversAll(opts)
  {
    opts := [[]];
    forall p ensures Covers(opts, p) { assert HasPrefixByName(p, opts[0]); }
  }

  // Clear is what the walkers see: no optionalize set makes the listing meet a wrong shape.
  lemma ClearExactly(obj: Fields, p: Path)
    requires |p| > 0
    ensures Clear(obj, p) <==> forall opts :: OnlyAbsence(ReadLeaves(obj, p, opts))
  {
    if Clear(obj, p) {
      forall opts ensures OnlyAbsence(ReadLeaves(obj, p, opts)) { ClearReads(obj, p, opts); }
    } else {
      var everything := Everything();
      if OnlyAbsence(ReadLeaves(obj, p, everything)) { ListedIsClear(obj, p, everything); }
      assert !OnlyAbsence(ReadLeaves(obj, p, everything));
    }
  }

  // --- what an op can put on a path ---

  // The leaf that w names lies on p, before p's own leaf.
  predicate LandsOn(w: Path, p: Path) {
    0 < |w| < |p| && w[..|w| - 1] == p[..|w| - 1] && w[|w| - 1].name == p[|w| - 1].name
  }

  // The write-mode walk of w can create an object at segment k, where p iterates an array.
  predicate CreatesOver(w: Path, p: Path, k: nat) {
    && k + 1 < |w| && k + 1 < |p| && w[..k] == p[..k] && w[k].name == p[k].name && p[k].isArray
    && forall j :: k <= j < |w| - 1 ==> !w[j].isArray
  }

  // Rename puts a value of any shape under its target, default a scalar on its leaf and objects on the
  // way there. Coerce only ever replaces scalars.
  ghost predicate WritesThrough(op: Op, p: Path) {
    match op
    case Rename(_, to) => LandsOn(to, p)
    case Default(field, v) => (!v.Null? && LandsOn(field, p)) || exists k :: CreatesOver(field, p, k)
    case _ => false
  }

  // --- ops that do not write through p keep it clear ---

  ghost predicate KeepsAt(f: LeafFn, leaf: string, p: Path) {
    forall m: Fields :: Clear(m, p) && f(m, leaf).Ok? ==> Clear(f(m, leaf).value, p)
  }

  // If the walk of w reaches p's own places, its verb keeps what is left of p clear.
  ghost predicate LeafKeeps(f: LeafFn, w: Path, p: Path) {
    0 < |w| <= |p| && w[..|w| - 1] == p[..|w| - 1] ==> KeepsAt(f, Leaf(w), p[|w| - 1..])
  }

  lemma LeafKeepsBelow(f: LeafFn, w: Path, p: Path)
    requires |w| > 1 && |p| > 1 && w[0] == p[0] && LeafKeeps(f, w, p)
    ensures LeafKeeps(f, w[1..], p[1..])
  {
    var w', p' := w[1..], p[1..];
    if |w'| <= |p'| && w'[..|w'| - 1] == p'[..|w'| - 1] {
      assert w[..|w| - 1] == [w[0]] + w'[..|w'| - 1] && p[..|w| - 1] == [p[0]] + p'[..|w'| - 1];
      assert p'[|w'| - 1..] == p[|w| - 1..];
    }
  }

  lemma {:induction false} WalkKeepsClear(obj: Fields, w: Path, opts: seq<Path>, f: LeafFn, p: Path)
    requires Clear(obj, p) && Walk(obj, w, opts, f).Ok? && LeafKeeps(f, w, p)
    ensures Clear(Walk(obj, w, opts, f).value, p)
    decreases |w|, 0
  {
    if |w| == 1 {
      if |p| > 0 { assert w[..0] == p[..0] && p[0..] == p; }
    } else if |p| > 1 && !Missing(obj, w[0].name) && p[0].name == w[0].name {
      assert p[0] == w[0];
      LeafKeepsBelow(f, w, p);
      if w[0].isArray {
        WalkEachKeepsClear(obj[w[0].name].elems, w[1..], opts, f, p[1..]);
      } else {
        WalkKeepsClear(obj[w[0].name].fields, w[1..], opts, f, p[1..]);
      }
    }
  }

  lemma {:induction false} WalkEachKeepsClear(elems: seq<Json>, w: Path, opts: seq<Path>, f: LeafFn, p: Path)
    requires forall k :: 0 <= k < |elems| ==> elems[k].Obj? && Clear(elems[k].fields, p)
    requires WalkEach(elems, w, opts, f).Ok? && LeafKeeps(f, w, p)
    ensures var r := WalkEach(elems, w, opts, f).value;
            forall k :: 0 <= k < |r| ==> r[k].Obj? && Clear(r[k].fields, p)
    decreases |w|, 1 + |elems|
  {
    if elems != [] {
      WalkKeepsClear(elems[0].fields, w, opts, f, p);
      WalkEachKeepsClear(elems[1..], w, opts, f, p);
      var r := WalkEach(elems, w, opts, f).value;
      forall k | 0 <= k < |r| ensures r[k].Obj? && Clear(r[k].fields, p) {
        if k > 0 { assert r[k] == WalkEach(elems[1..], w, opts, f).value[k - 1]; }
      }
    }
  }

  lemma {:induction false} CreatedPlain(w: Path, f: LeafFn)
    requires WalkEnsure(map[], w, f).Ok?
    ensures forall j :: 0 <= j < |w| - 1 ==> !w[j].isArray
    decreases |w|
  {
    if |w| > 1 {
      CreatedPlain(w[1..], f);
      forall j | 0 < j < |w| - 1 ensures !w[j].isArray { assert w[j] == w[1..][j - 1]; }
    }
  }

  lemma CreatesOverBelow(w: Path, p: Path, k: nat)
    requires |w| > 1 && |p| > 1 && w[0] == p[0] && CreatesOver(w[1..], p[1..], k)
    ensures CreatesOver(w, p, k + 1)
  {
    assert w[..k + 1] == [w[0]] + w[1..][..k] && p[..k + 1] == [p[0]] + p[1..][..k];
    forall j | k + 1 <= j < |w| - 1 ensures !w[j].isArray { assert w[j] == w[1..][j - 1]; }
  }

  ghost predicate EnsureSafe(f: LeafFn, w: Path, p: Path) {
    LeafKeeps(f, w, p) && forall k :: !CreatesOver(w, p, k)
  }

  lemma EnsureSafeBelow(f: LeafFn, w: Path, p: Path)
    requires |w| > 1 && |p| > 1 && w[0] == p[0] && EnsureSafe(f, w, p)
    ensures EnsureSafe(f, w[1..], p[1..])
  {
    LeafKeepsBelow(f, w, p);
    forall k ensures !CreatesOver(w[1..], p[1..], k) {
      if CreatesOver(w[1..], p[1..], k) { CreatesOverBelow(w, p, k); }
    }
  }

  lemma {:induction false} EnsureKeepsClear(obj: Fields, w: Path, f: LeafFn, p: Path)
    requires Clear(obj, p) && WalkEnsure(obj, w, f).Ok? && EnsureSafe(f, w, p)
    ensures Clear(WalkEnsure(obj, w, f).value, p)
    decreases |w|, 0
  {
    if |w| == 1 {
      if |p| > 0 { assert w[..0] == p[..0] && p[0..] == p; }
    } else if |p| > 1 && p[0].name == w[0].name {
      var name := w[0].name;
      if Missing(obj, name) {
        CreatedHere(w, f, p);
        EnsureSafeBelow(f, w, p);
        EnsureKeepsClear(map[], w[1..], f, p[1..]);
      } else {
        assert p[0] == w[0];
        EnsureSafeBelow(f, w, p);
        if w[0].isArray {
          EnsureEachKeepsClear(obj[name].elems, w[1..], f, p[1..]);
        } else {
          EnsureKeepsClear(obj[name].fields, w[1..], f, p[1..]);
        }
      }
    }
  }

  // Where an object is created on p, p expects one.
  lemma CreatedHere(w: Path, f: LeafFn, p: Path)
    requires |w| > 1 && |p| > 1 && p[0].name == w[0].name && !w[0].isArray
    requires WalkEnsure(map[], w[1..], f).Ok? && EnsureSafe(f, w, p)
    ensures p[0] == w[0]
  {
    CreatedPlain(w[1..], f);
    forall j | 0 <= j < |w| - 1 ensures !w[j].isArray { if j > 0 { assert w[j] == w[1..][j - 1]; } }
    assert w[..0] == p[..0] && !CreatesOver(w, p, 0);
  }

  lemma {:induction false} EnsureEachKeepsClear(elems: seq<Json>, w: Path, f: LeafFn, p: Path)
    requires forall k :: 0 <= k < |elems| ==> elems[k].Obj? && Clear(elems[k].fields, p)
    requires WalkEnsureEach(elems, w, f).Ok? && EnsureSafe(f, w, p)
    ensures var r := WalkEnsureEach(elems, w, f).value;
            forall k :: 0 <= k < |r| ==> r[k].Obj? && Clear(r[k].fields, p)
    decreases |w|, 1 + |elems|
  {
    if elems != [] {
      EnsureKeepsClear(elems[0].fields, w, f, p);
      EnsureEachKeepsClear(elems[1..], w, f, p);
      var r := WalkEnsureEach(elems, w, f).value;
      forall k | 0 <= k < |r| ensures r[k].Obj? && Clear(r[k].fields, p) {
        if k > 0 { assert r[k] == WalkEnsureEach(elems[1..], w, f).value[k - 1]; }
      }
    }
  }

  // --- the verbs ---

  lemma RenameKeeps(toLeaf: string, covered: bool, leaf: string, p: Path)
    requires |p| <= 1 || p[0].name != toLeaf
    ensures KeepsAt(RenameLeaf(toLeaf, covered), leaf, p)
  {
  }

  lemma CoerceKeeps(lib: Numerics, target: string, covered: bool, leaf: string, p: Path)
    ensures KeepsAt(CoerceLeaf(lib, target, covered), leaf, p)
  {
  }

  lemma DefaultKeeps(v: Json, leaf: string, p: Path)
    requires |p| <= 1 || p[0].name != leaf || v.Null?
    ensures KeepsAt(DefaultLeaf(v), leaf, p)
  {
  }

  // The loader's rule for renames.
  ghost predicate LoaderValid(op: Op) {
    WellFormed(op) && (op.Rename? ==> SameParentDifferentLeaf(op.from, op.to))
  }

  lemma StepKeepsClear(lib: Numerics, op: Op, opts: seq<Path>, obj: Fields, p: Path)
    requires LoaderValid(op) && !WritesThrough(op, p) && Clear(obj, p) && Step(lib, op, opts, obj).Ok?
    ensures Clear(Step(lib, op, opts, obj).value, p)
  {
    match op
    case Optionalize(_) =>
    case Rename(from, to) =>
      var f := RenameLeaf(to[|to| - 1].name, Covers(opts, from));
      if |from| <= |p| && from[..|from| - 1] == p[..|from| - 1] {
        assert p[|from| - 1..] == [] || p[|from| - 1..][0] == p[|from| - 1];
        RenameKeeps(to[|to| - 1].name, Covers(opts, from), Leaf(from), p[|from| - 1..]);
      }
      WalkKeepsClear(obj, from, opts, f, p);
    case Default(field, v) =>
      if 0 < |field| <= |p| && field[..|field| - 1] == p[..|field| - 1] {
        DefaultKeeps(v, Leaf(field), p[|field| - 1..]);
      }
      EnsureKeepsClear(obj, field, DefaultLeaf(v), p);
    case Coerce(field, target) =>
      if 0 < |field| <= |p| { CoerceKeeps(lib, target, Covers(opts, field), Leaf(field), p[|field| - 1..]); }
      WalkKeepsClear(obj, field, opts, CoerceLeaf(lib, target, Covers(opts, field)), p);
  }

  // --- ops that write through p can break it ---

  // `base` below the first n segments of p, all of them present as p expects.
  function Nest(p: Path, n: nat, base: Fields): Fields
    requires n <= |p|
    decreases n
  {
    if n == 0 then base
    else
      var inner := Obj(Nest(p[1..], n - 1, base));
      map[p[0].name := if p[0].isArray then Arr([inner]) else inner]
  }

  lemma {:induction false} NestClear(w: Path, n: nat, base: Fields, p: Path)
    requires n <= |w| && n < |p| && w[..n] == p[..n]
    ensures Clear(Nest(w, n, base), p) <==> Clear(base, p[n..])
    decreases n
  {
    if n == 0 {
      assert p[0..] == p;
    } else {
      assert w[0] == w[..n][0] == p[..n][0] == p[0];
      assert w[1..][..n - 1] == w[..n][1..] == p[..n][1..] == p[1..][..n - 1] && p[1..][n - 1..] == p[n..];
      NestClear(w[1..], n - 1, base, p[1..]);
      var obj, inner := Nest(w, n, base), Obj(Nest(w[1..], n - 1, base));
      assert p[0].isArray ==> obj[p[0].name].elems[0] == inner;
    }
  }

  lemma {:induction false} NestWalks(w: Path, n: nat, base: Fields, opts: seq<Path>, f: LeafFn)
    requires n < |w| && Walk(base, w[n..], opts, f).Ok?
    ensures Walk(Nest(w, n, base), w, opts, f) == Ok(Nest(w, n, Walk(base, w[n..], opts, f).value))
    decreases n
  {
    if n == 0 {
      assert w[0..] == w;
    } else {
      assert w[1..][n - 1..] == w[n..];
      NestWalks(w[1..], n - 1, base, opts, f);
      var inner, out := Nest(w[1..], n - 1, base), Nest(w[1..], n - 1, Walk(base, w[n..], opts, f).value);
      if w[0].isArray {
        assert WalkEach([Obj(inner)][1..], w[1..], opts, f) == Ok([]) && [Obj(out)] + [] == [Obj(out)];
        assert WalkEach([Obj(inner)], w[1..], opts, f) == Ok([Obj(out)]);
      }
      assert Nest(w, n, base)[w[0].name := if w[0].isArray then Arr([Obj(out)]) else Obj(out)]
          == Nest(w, n, Walk(base, w[n..], opts, f).value);
    }
  }

  lemma {:induction false} NestEnsures(w: Path, n: nat, base: Fields, f: LeafFn)
    requires n < |w| && WalkEnsure(base, w[n..], f).Ok?
    ensures WalkEnsure(Nest(w, n, base), w, f) == Ok(Nest(w, n, WalkEnsure(base, w[n..], f).value))
    decreases n
  {
    if n == 0 {
      assert w[0..] == w;
    } else {
      assert w[1..][n - 1..] == w[n..];
      NestEnsures(w[1..], n - 1, base, f);
      var inner, out := Nest(w[1..], n - 1, base), Nest(w[1..], n - 1, WalkEnsure(base, w[n..], f).value);
      if w[0].isArray {
        assert WalkEnsureEach([Obj(inner)][1..], w[1..], f) == Ok([]) && [Obj(out)] + [] == [Obj(out)];
        assert WalkEnsureEach([Obj(inner)], w[1..], f) == Ok([Obj(out)]);
      }
      assert Nest(w, n, base)[w[0].name := if w[0].isArray then Arr([Obj(out)]) else Obj(out)]
          == Nest(w, n, WalkEnsure(base, w[n..], f).value);
    }
  }

  lemma {:induction false} PlainIsCreated(w: Path, v: Json)
    requires |w| > 0 && forall j :: 0 <= j < |w| - 1 ==> !w[j].isArray
    ensures WalkEnsure(map[], w, DefaultLeaf(v)).Ok?
    decreases |w|
  {
    if |w| > 1 {
      forall j | 0 <= j < |w[1..]| - 1 ensures !w[1..][j].isArray { assert w[1..][j] == w[j + 1]; }
      PlainIsCreated(w[1..], v);
    }
  }

  lemma {:induction false} NestClashes(w: Path, n: nat, base: Fields, p: Path, f: LeafFn)
    requires n <= |w| && n < |p| && w[..n] == p[..n] && Walk(base, p[n..], [], f) == Fail(WrongShape)
    ensures Walk(Nest(w, n, base), p, [], f) == Fail(WrongShape)
    decreases n
  {
    if n == 0 {
      assert p[0..] == p;
    } else {
      assert w[0] == w[..n][0] == p[..n][0] == p[0];
      assert w[1..][..n - 1] == w[..n][1..] == p[..n][1..] == p[1..][..n - 1] && p[1..][n - 1..] == p[n..];
      NestClashes(w[1..], n - 1, base, p[1..], f);
      var obj, inner := Nest(w, n, base), Obj(Nest(w[1..], n - 1, base));
      assert p[0].isArray ==> obj[p[0].name].elems[0] == inner;
    }
  }

  // Any walk of p meets a wrong shape.
  ghost predicate Clashes(obj: Fields, p: Path) {
    forall f: LeafFn :: Walk(obj, p, [], f) == Fail(WrongShape)
  }

  lemma ClashesIsNotClear(obj: Fields, p: Path)
    requires Clashes(obj, p) && |p| > 0
    ensures !Clear(obj, p)
  {
    var f := DefaultLeaf(Null);
    assert Walk(obj, p, [], f) == Fail(WrongShape);
    WalkFailsAs(obj, p, [], f);
    if Clear(obj, p) { ClearReads(obj, p, []); }
  }

  // The op takes a body on which p and its own path are clear to one on which any walk of p clashes.
  ghost predicate Breaks(lib: Numerics, op: Op, p: Path, obj: Fields)
    requires WellFormed(op)
  {
    && Clear(obj, p) && AllClear([op], obj)
    && Step(lib, op, [], obj).Ok? && Clashes(Step(lib, op, [], obj).value, p)
  }

  lemma NestBroken(w: Path, n: nat, r: Fields, p: Path)
    requires n <= |w| && n + 1 < |p| && w[..n] == p[..n] && !Missing(r, p[n].name)
    requires if p[n].isArray then !r[p[n].name].Arr? else !r[p[n].name].Obj?
    ensures Clashes(Nest(w, n, r), p)
  {
    assert p[n..][0] == p[n];
    forall f: LeafFn ensures Walk(Nest(w, n, r), p, [], f) == Fail(WrongShape) { NestClashes(w, n, r, p, f); }
  }

  lemma RenameBreaks(lib: Numerics, from: Path, to: Path, p: Path) returns (obj: Fields)
    requires SameParentDifferentLeaf(from, to) && LandsOn(to, p)
    ensures Breaks(lib, Rename(from, to), p, obj)
  {
    var n := |from| - 1;
    var base: Fields := map[Leaf(from) := Str("")];
    obj := Nest(from, n, base);
    var f := RenameLeaf(to[|to| - 1].name, Covers([], from));
    var r: Fields := map[to[|to| - 1].name := Str("")];
    assert from[n..] == [from[n]] && p[n..][0] == p[n];
    assert (base - {Leaf(from)})[to[|to| - 1].name := base[Leaf(from)]] == r;
    assert Walk(base, from[n..], [], f) == Ok(r);
    NestWalks(from, n, base, [], f);
    NestClear(from, n, base, p);
    NestClear(from, n, base, from);
    NestBroken(from, n, r, p);
  }

  lemma DefaultBreaks(lib: Numerics, field: Path, v: Json, p: Path) returns (obj: Fields)
    requires Scalar(v) && !v.Null? && LandsOn(field, p)
    ensures Breaks(lib, Default(field, v), p, obj)
  {
    var n := |field| - 1;
    obj := Nest(field, n, map[]);
    assert field[n..] == [field[n]] && p[n..][0] == p[n];
    NestEnsures(field, n, map[], DefaultLeaf(v));
    NestClear(field, n, map[], p);
    NestClear(field, n, map[], field);
    NestBroken(field, n, map[field[n].name := v], p);
  }

  lemma CreationBreaks(lib: Numerics, field: Path, v: Json, p: Path, k: nat) returns (obj: Fields)
    requires Scalar(v) && CreatesOver(field, p, k)
    ensures Breaks(lib, Default(field, v), p, obj)
  {
    obj := Nest(field, k, map[]);
    var rest := field[k..];
    forall j | 0 <= j < |rest| - 1 ensures !rest[j].isArray { assert rest[j] == field[k + j]; }
    PlainIsCreated(rest, v);
    var r := WalkEnsure(map[], rest, DefaultLeaf(v)).value;
    assert rest[0] == field[k] && p[k..][0] == p[k] && r[field[k].name].Obj?;
    NestEnsures(field, k, map[], DefaultLeaf(v));
    NestClear(field, k, map[], p);
    NestClear(field, k, map[], field);
    NestBroken(field, k, r, p);
  }

  lemma WritingThroughBreaks(lib: Numerics, op: Op, p: Path) returns (obj: Fields)
    requires LoaderValid(op) && WritesThrough(op, p)
    ensures Breaks(lib, op, p, obj)
  {
    if op.Rename? {
      obj := RenameBreaks(lib, op.from, op.to, p);
    } else if !op.value.Null? && LandsOn(op.field, p) {
      obj := DefaultBreaks(lib, op.field, op.value, p);
    } else {
      var k :| CreatesOver(op.field, p, k);
      obj := CreationBreaks(lib, op.field, op.value, p, k);
    }
  }

  // An op keeps every body on which p was clear that way exactly when it does not write through p.
  lemma StepKeepsClearExactly(lib: Numerics, op: Op, p: Path)
    requires LoaderValid(op)
    ensures (forall obj, opts :: Clear(obj, p) && Step(lib, op, opts, obj).Ok? ==>
              Clear(Step(lib, op, opts, obj).value, p)) <==> !WritesThrough(op, p)
  {
    if WritesThrough(op, p) {
      var obj := WritingThroughBreaks(lib, op, p);
      ClashesIsNotClear(Step(lib, op, [], obj).value, p);
      assert Clear(obj, p) && Step(lib, op, [], obj).Ok? && !Clear(Step(lib, op, [], obj).value, p);
    } else {
      forall obj, opts | Clear(obj, p) && Step(lib, op, opts, obj).Ok?
          ensures Clear(Step(lib, op, opts, obj).value, p) {
        StepKeepsClear(lib, op, opts, obj, p);
      }
    }
  }

  // --- whole lists ---

  // The path an op walks.
  function Walked(op: Op): Option<Path> {
    match op
    case Rename(from, _) => Some(from)
    case Default(field, _) => Some(field)
    case Coerce(field, _) => Some(field)
    case Optionalize(_) => None
  }

  // No op writes through the path of a later one.
  ghost predicate NothingWrittenThrough(ops: seq<Op>) {
    forall i, j :: 0 <= i < j < |ops| && Walked(ops[j]).Some? ==> !WritesThrough(ops[i], Walked(ops[j]).value)
  }

  ghost predicate AllClear(ops: seq<Op>, obj: Fields) {
    forall i :: 0 <= i < |ops| && Walked(ops[i]).Some? ==> Clear(obj, Walked(ops[i]).value)
  }

  lemma {:induction false} EnsureNeverClashes(obj: Fields, w: Path, v: Json)
    requires Clear(obj, w) && |w| > 0
    ensures WalkEnsure(obj, w, DefaultLeaf(v)) != Fail(WrongShape)
    decreases |w|, 0
  {
    if |w| > 1 {
      if Missing(obj, w[0].name) {
        EnsureNeverClashes(map[], w[1..], v);
      } else if w[0].isArray {
        EnsureEachNeverClashes(obj[w[0].name].elems, w[1..], v);
      } else {
        EnsureNeverClashes(obj[w[0].name].fields, w[1..], v);
      }
    }
  }

  lemma {:induction false} EnsureEachNeverClashes(elems: seq<Json>, w: Path, v: Json)
    requires |w| > 0 && forall k :: 0 <= k < |elems| ==> elems[k].Obj? && Clear(elems[k].fields, w)
    ensures WalkEnsureEach(elems, w, DefaultLeaf(v)) != Fail(WrongShape)
    decreases |w|, 1 + |elems|
  {
    if elems != [] {
      EnsureNeverClashes(elems[0].fields, w, v);
      EnsureEachNeverClashes(elems[1..], w, v);
    }
  }

  lemma ClearStepNeverClashes(lib: Numerics, op: Op, opts: seq<Path>, obj: Fields)
    requires LoaderValid(op) && AllClear([op], obj)
    ensures Step(lib, op, opts, obj) != Fail(WrongShape)
  {
    assert [op][0] == op;
    match op
    case Optionalize(_) =>
    case Rename(from, to) =>
      ClearReads(obj, from, opts);
      WalkFailsAs(obj, from, opts, RenameLeaf(to[|to| - 1].name, Covers(opts, from)));
    case Default(field, v) =>
      if |field| > 0 { EnsureNeverClashes(obj, field, v); }
    case Coerce(field, target) =>
      if |field| > 0 {
        ClearReads(obj, field, opts);
        CoerceNeverClashes(lib, obj, field, target, opts);
      }
  }

  lemma CoerceNeverClashes(lib: Numerics, obj: Fields, p: Path, target: string, opts: seq<Path>)
    requires OnlyAbsence(ReadLeaves(obj, p, opts))
    ensures Walk(obj, p, opts, CoerceLeaf(lib, target, Covers(opts, p))) != Fail(WrongShape)
  {
    var f := CoerceLeaf(lib, target, Covers(opts, p));
    WalkFailsAs(obj, p, opts, f);
    if VerbFails(obj, p, opts, f, WrongShape) {
      var pos :| Refuses(Obj(obj), pos, Leaf(p), f, WrongShape);
      CoerceLeafFails(lib, target, Covers(opts, p), At(Obj(obj), pos).value.fields, Leaf(p));
    }
  }

  // A list of which no op writes through a later path, run on a body on which all its paths are clear,
  // never meets a wrong shape.
  lemma {:induction false} ClearListNeverClashes(lib: Numerics, ops: seq<Op>, opts: seq<Path>, obj: Fields)
    requires AllWellFormed(ops) && (forall i :: 0 <= i < |ops| ==> LoaderValid(ops[i]))
    requires AllClear(ops, obj) && NothingWrittenThrough(ops)
    ensures Run(lib, ops, opts, obj) != Fail(WrongShape)
    decreases |ops|
  {
    if ops != [] {
      var rest, r := ops[1..], Step(lib, ops[0], opts, obj);
      ClearStepNeverClashes(lib, ops[0], opts, obj);
      if r.Ok? {
        forall i | 0 <= i < |rest| && Walked(rest[i]).Some?
          ensures Clear(r.value, Walked(rest[i]).value)
        {
          assert rest[i] == ops[i + 1];
          StepKeepsClear(lib, ops[0], opts, obj, Walked(rest[i]).value);
        }
        forall i, j | 0 <= i < j < |rest| && Walked(rest[j]).Some?
          ensures !WritesThrough(rest[i], Walked(rest[j]).value)
        {
          assert rest[i] == ops[i + 1] && rest[j] == ops[j + 1];
        }
        ClearListNeverClashes(lib, rest, opts + Tolerated(ops[0]), r.value);
      }
    }
  }

  // --- pairs of ops, exactly ---

  // Where a read-mode walk without an optionalize set succeeds or meets a wrong shape, a write-mode walk
  // does the same.
  lemma {:induction false} EnsureAgrees(obj: Fields, p: Path, f: LeafFn)
    requires Walk(obj, p, [], f).Ok? || Walk(obj, p, [], f) == Fail(WrongShape)
    ensures WalkEnsure(obj, p, f) == Walk(obj, p, [], f)
    decreases |p|, 0
  {
    if |p| > 1 && !Missing(obj, p[0].name) {
      var v := obj[p[0].name];
      if p[0].isArray && v.Arr? {
        EnsureEachAgrees(v.elems, p[1..], f);
      } else if !p[0].isArray && v.Obj? {
        EnsureAgrees(v.fields, p[1..], f);
      }
    }
  }

  lemma {:induction false} EnsureEachAgrees(elems: seq<Json>, p: Path, f: LeafFn)
    requires WalkEach(elems, p, [], f).Ok? || WalkEach(elems, p, [], f) == Fail(WrongShape)
    ensures WalkEnsureEach(elems, p, f) == WalkEach(elems, p, [], f)
    decreases |p|, 1 + |elems|
  {
    if elems != [] && elems[0].Obj? {
      EnsureAgrees(elems[0].fields, p, f);
      if Walk(elems[0].fields, p, [], f).Ok? { EnsureEachAgrees(elems[1..], p, f); }
    }
  }

  // Two ops in sequence meet a wrong shape on a body on which both their paths are clear.
  ghost predicate PairClashes(lib: Numerics, one: Op, two: Op, obj: Fields) {
    AllWellFormed([one, two]) && AllClear([one, two], obj) && Run(lib, [one, two], [], obj) == Fail(WrongShape)
  }

  lemma StepClashes(lib: Numerics, op: Op, obj: Fields)
    requires WellFormed(op) && Walked(op).Some? && Clashes(obj, Walked(op).value)
    ensures Step(lib, op, [], obj) == Fail(WrongShape)
  {
    match op
    case Rename(from, to) =>
      assert Walk(obj, from, [], RenameLeaf(to[|to| - 1].name, Covers([], from))) == Fail(WrongShape);
    case Default(field, v) =>
      assert Walk(obj, field, [], DefaultLeaf(v)) == Fail(WrongShape);
      EnsureAgrees(obj, field, DefaultLeaf(v));
    case Coerce(field, target) =>
      assert Walk(obj, field, [], CoerceLeaf(lib, target, Covers([], field))) == Fail(WrongShape);
  }

  lemma RunOfTwo(lib: Numerics, one: Op, two: Op, obj: Fields)
    requires WellFormed(one) && WellFormed(two) && !one.Optionalize? && Step(lib, one, [], obj).Ok?
    requires Step(lib, two, [], Step(lib, one, [], obj).value).Fail?
    ensures AllWellFormed([one, two])
    ensures Run(lib, [one, two], [], obj) == Fail(Step(lib, two, [], Step(lib, one, [], obj).value).reason)
  {
    assert [one, two][1..] == [two] && [] + Tolerated(one) == [];
    var next := Step(lib, one, [], obj).value;
    assert Run(lib, [two], [], next) == Fail(Step(lib, two, [], next).reason);
  }

  // Two ops never clash on a body on which both their paths are clear, exactly when the first does not
  // write through the second one's path.
  lemma PairExactly(lib: Numerics, one: Op, two: Op)
    requires LoaderValid(one) && LoaderValid(two) && Walked(two).Some?
    ensures (forall obj :: !PairClashes(lib, one, two, obj)) <==> !WritesThrough(one, Walked(two).value)
  {
    var ops, p := [one, two], Walked(two).value;
    assert ops[0] == one && ops[1] == two;
    if WritesThrough(one, p) {
      var obj := WritingThroughBreaks(lib, one, p);
      assert [one][0] == one;
      StepClashes(lib, two, Step(lib, one, [], obj).value);
      RunOfTwo(lib, one, two, obj);
      assert PairClashes(lib, one, two, obj);
    } else {
      forall obj ensures !PairClashes(lib, one, two, obj) {
        if AllClear(ops, obj) { ClearListNeverClashes(lib, ops, [], obj); }
      }
    }
  }

  // So nothing is written through a later path of a list exactly when no two of its ops, in order, ever
  // clash.
  lemma ListExactly(lib: Numerics, ops: seq<Op>)
    requires forall i :: 0 <= i < |ops| ==> LoaderValid(ops[i])
    ensures NothingWrittenThrough(ops) <==>
            forall i, j, obj :: 0 <= i < j < |ops| && Walked(ops[j]).Some? ==> !PairClashes(lib, ops[i], ops[j], obj)
  {
    forall i, j | 0 <= i < j < |ops| && Walked(ops[j]).Some?
      ensures (forall obj :: !PairClashes(lib, ops[i], ops[j], obj)) <==> !WritesThrough(ops[i], Walked(ops[j]).value)
    {
      PairExactly(lib, ops[i], ops[j]);
    }
  }

  // --- lists on conforming bodies ---

  lemma SafeIsClear(reg: Registry, message: string, obj: Fields, p: Path)
    requires Closed(reg) && message in reg && IsObject(reg[message])
    requires ShapeSafe(reg, message, p) && Conforms(reg, Obj(obj), message)
    ensures Clear(obj, p)
  {
    if |p| > 0 {
      forall opts ensures OnlyAbsence(ReadLeaves(obj, p, opts)) { ShapeSafeIsSound(reg, message, obj, p, opts); }
      ClearExactly(obj, p);
    }
  }

  // The iff for default, as it is executed: it never meets a wrong shape on a conforming body exactly
  // when its path is shape-safe. A path the message knows nothing about is.
  lemma DefaultShapeSafeExactly(lib: Numerics, reg: Registry, message: string, field: Path, v: Json)
    requires Closed(reg) && message in reg && IsObject(reg[message]) && |field| > 0 && Scalar(v)
    ensures ShapeSafe(reg, message, field) <==>
            forall obj, opts :: Conforms(reg, Obj(obj), message) ==>
              Step(lib, Default(field, v), opts, obj) != Fail(WrongShape)
  {
    if ShapeSafe(reg, message, field) {
      forall obj, opts | Conforms(reg, Obj(obj), message)
        ensures Step(lib, Default(field, v), opts, obj) != Fail(WrongShape)
      {
        SafeIsClear(reg, message, obj, field);
        EnsureNeverClashes(obj, field, v);
      }
    } else {
      var obj := Tripping(reg, message, field);
      TrippingTrips(reg, message, field, DefaultLeaf(v));
      EnsureAgrees(obj, field, DefaultLeaf(v));
      assert Step(lib, Default(field, v), [], obj) == Fail(WrongShape);
    }
  }

  // Every path of the list is shape-safe, and none is written through before it is walked: then no body
  // that conforms to the descriptor makes the call meet a wrong shape.
  lemma {:induction false} SafeListNeverClashes(lib: Numerics, reg: Registry, message: string, ops: seq<Op>,
      obj: Fields)
    requires AllWellFormed(ops) && (forall i :: 0 <= i < |ops| ==> LoaderValid(ops[i]))
    requires Closed(reg) && message in reg && IsObject(reg[message]) && Conforms(reg, Obj(obj), message)
    requires forall i :: 0 <= i < |ops| && Walked(ops[i]).Some? ==> ShapeSafe(reg, message, Walked(ops[i]).value)
    requires NothingWrittenThrough(ops)
    ensures Apply(lib, ops, Obj(obj)) != Fail(WrongShape)
  {
    forall i | 0 <= i < |ops| && Walked(ops[i]).Some? ensures Clear(obj, Walked(ops[i]).value) {
      SafeIsClear(reg, message, obj, Walked(ops[i]).value);
    }
    ClearListNeverClashes(lib, ops, [], obj);
  }

  // What the loader checks of a request list: the paths renames and coerces read, not those defaults
  // write, which may name fields the message lacks.
  ghost predicate RequestAccepted(reg: Registry, message: string, op: Op) {
    match op
    case Rename(from, _) => AcceptedOn(reg, message, from)
    case Coerce(field, _) => AcceptedOn(reg, message, field)
    case _ => true
  }

  // Path soundness for an accepted request list whose defaults are shape-safe.
  lemma {:induction false} AcceptedListNeverClashes(lib: Numerics, reg: Registry, message: string, ops: seq<Op>,
      obj: Fields)
    requires AllWellFormed(ops) && (forall i :: 0 <= i < |ops| ==> LoaderValid(ops[i]))
    requires Closed(reg) && message in reg && IsObject(reg[message]) && Conforms(reg, Obj(obj), message)
    requires forall i :: 0 <= i < |ops| ==> RequestAccepted(reg, message, ops[i])
    requires forall i :: 0 <= i < |ops| && ops[i].Default? ==> ShapeSafe(reg, message, ops[i].field)
    requires NothingWrittenThrough(ops)
    ensures Apply(lib, ops, Obj(obj)) != Fail(WrongShape)
  {
    forall i | 0 <= i < |ops| && Walked(ops[i]).Some? ensures ShapeSafe(reg, message, Walked(ops[i]).value) {
      if !ops[i].Default? { AcceptedPathIsSafe(reg, message, Walked(ops[i]).value); }
    }
    SafeListNeverClashes(lib, reg, message, ops, obj);
  }

  lemma AcceptedPathIsSafe(reg: Registry, message: string, p: Path)
    requires AcceptedOn(reg, message, p)
    ensures ShapeSafe(reg, message, p)
  {
    assert p[0..] == p;
    AcceptedIsShapeSafe(reg, message, p, 0);
  }

  // Without the last condition it fails: both paths are accepted and the body conforms, but the rename
  // puts a scalar where the coerce then expects an object.
  lemma WrittenThroughClashes(lib: Numerics)
    ensures var a, bc := [Segment("a", false)], [Segment("b", false), Segment("c", false)];
            var ops := [Rename(a, [Segment("b", false)]), Coerce(bc, "string")];
            && AcceptedOn(REGISTRY, "M", a) && AcceptedOn(REGISTRY, "M", bc)
                && Conforms(REGISTRY, Obj(map["a" := Str("v")]), "M")
            && Apply(lib, ops, Obj(map["a" := Str("v")])) == Fail(WrongShape)
  {
    WrittenThroughAccepted();
    var a, b, bc := [Segment("a", false)], [Segment("b", false)], [Segment("b", false), Segment("c", false)];
    var rename, coerce := Rename(a, b), Coerce(bc, "string");
    var body, moved: Fields := map["a" := Str("v")], map["b" := Str("v")];
    assert (body - {"a"})["b" := body["a"]] == moved;
    assert Step(lib, rename, [], body) == Ok(moved);
    assert [rename, coerce][1..] == [coerce] && [] + Tolerated(rename) == [];
    assert Step(lib, coerce, [], moved) == Fail(WrongShape);
    assert Run(lib, [coerce], [], moved) == Fail(WrongShape);
    assert Run(lib, [rename, coerce], [], body) == Fail(WrongShape);
  }

  // Without the one before it fails too: the loader accepts a request default below a scalar field, and
  // a conforming body makes it meet a wrong shape.
  lemma UnsafeDefaultClashes(lib: Numerics)
    ensures var ops := [Default([Segment("a", false), Segment("x", false)], Str("z"))];
            && Closed(REGISTRY) && Conforms(REGISTRY, Obj(map["a" := Str("v")]), "M")
            && LoaderValid(ops[0]) && RequestAccepted(REGISTRY, "M", ops[0]) && NothingWrittenThrough(ops)
            && Apply(lib, ops, Obj(map["a" := Str("v")])) == Fail(WrongShape)
  {
    WrittenThroughAccepted();
    var ax := [Segment("a", false), Segment("x", false)];
    var body: Fields := map["a" := Str("v")];
    assert Step(lib, Default(ax, Str("z")), [], body) == Fail(WrongShape);
    assert Run(lib, [Default(ax, Str("z"))], [], body) == Fail(WrongShape);
  }

  const FIELD_A := Field("a", "a", Singular, ScalarKind)
  const FIELD_B := Field("b", "b", Singular, MessageKind("N"))
  const FIELD_C := Field("c", "c", Singular, ScalarKind)

  // M{a: scalar, b: N} and N{c: scalar}.
  const REGISTRY: Registry := map["M" := Message([FIELD_A, FIELD_B], ByFields), "N" := Message([FIELD_C], ByFields)]

  lemma WrittenThroughAccepted()
    ensures AcceptedOn(REGISTRY, "M", [Segment("a", false)])
    ensures AcceptedOn(REGISTRY, "M", [Segment("b", false), Segment("c", false)])
    ensures Conforms(REGISTRY, Obj(map["a" := Str("v")]), "M")
  {
    RegistryIsClosed();
    var bc := [Segment("b", false), Segment("c", false)];
    assert [FIELD_A, FIELD_B][1..] == [FIELD_B];
    assert ByName([FIELD_A, FIELD_B], "a") == Some(FIELD_A) && ByName([FIELD_B], "b") == Some(FIELD_B)
        && ByName([FIELD_A, FIELD_B], "b") == Some(FIELD_B);
    assert ByJsonName([FIELD_A, FIELD_B], "a") == Some(FIELD_A) && ByName([FIELD_C], "c") == Some(FIELD_C);
    assert Check(REGISTRY, "N", bc, 1).Accepted?;
    assert ConformsField(REGISTRY, Str("v"), FIELD_A);
  }

  lemma RegistryIsClosed()
    ensures Closed(REGISTRY) && NamesAgree(REGISTRY)
  {
  }
}
