/**
 The transform runtime as it is written (internal/transform/walk.go and transform.go): recursive
 walkers that loop over arrays, create objects on the way down and let a verb rewrite the leaf's
 parent, all in one mutable store; and `apply`, which decodes, runs the ops with a growing optionalize
 set, and encodes. Proved equal to the functions of module Transform.
 */
module InPlace {
  import opened Json
  import opened Transform
  import opened Store
  import Meaning

  // The callbacks `apply` passes to the walkers.
  datatype Verb =
    | RenameVerb(toLeaf: string, covered: bool)
    | DefaultVerb(value: Json)
    | CoerceVerb(target: string, covered: bool)

  function LeafOf(lib: Numerics, verb: Verb): LeafFn {
    match verb
    case RenameVerb(toLeaf, covered) => RenameLeaf(toLeaf, covered)
    case DefaultVerb(value) => DefaultLeaf(value)
    case CoerceVerb(target, covered) => CoerceLeaf(lib, target, covered)
  }

  predicate ScalarVerb(verb: Verb) {
    verb.DefaultVerb? ==> Scalar(verb.value)
  }

  // A value without what lies below it: all that coerce looks at.
  function Shallow(v: Value): Json {
    match v
    case VNull => Null
    case VBool(b) => Bool(b)
    case VNumber(x) => Number(x)
    case VInteger(n) => Integer(n)
    case VStr(s) => Str(s)
    case VArr(_) => Arr([])
    case VObj(_) => Obj(map[])
  }

  lemma CoerceShallow(lib: Numerics, h: Heap, v: Value, j: Json, target: string)
    requires Represents(h, v, j)
    ensures CoerceValue(lib, Shallow(v), target) == CoerceValue(lib, j, target)
    ensures CoerceValue(lib, j, target).Ok? ==> Scalar(CoerceValue(lib, j, target).value)
  {
  }

  // What a mutating call promises: the wanted object in the same place, or the wanted failure.
  ghost predicate Outcome(h: Heap, h': Heap, ref: Ref, m: Fields, want: Result<Fields>, got: Option<Failure>) {
    match want
    case Ok(m') =>
      && got == None && Represents(h', VObj(ref), Obj(m'))
      && Changes(h, h', Refs(h, VObj(ref), Obj(m)), Refs(h', VObj(ref), Obj(m')))
    case Fail(e) => got == Some(e)
  }

  ghost predicate OutcomeEach(h: Heap, h': Heap, arr: seq<Value>, es: seq<Json>, want: Result<seq<Json>>,
      got: Option<Failure>) {
    match want
    case Ok(es') =>
      && got == None && Represents(h', VArr(arr), Arr(es'))
      && Changes(h, h', Refs(h, VArr(arr), Arr(es)), Refs(h', VArr(arr), Arr(es')))
    case Fail(e) => got == Some(e)
  }

  lemma Unchanged(h: Heap, ref: Ref, m: Fields)
    requires Represents(h, VObj(ref), Obj(m))
    ensures Outcome(h, h, ref, m, Ok(m), None)
  {
  }

  lemma LeafRenamed(h: Heap, ref: Ref, m: Fields, leaf: string, toLeaf: string)
    requires Represents(h, VObj(ref), Obj(m)) && leaf in m && toLeaf !in m
    ensures var node' := (h[ref] - {leaf})[toLeaf := h[ref][leaf]];
            Outcome(h, h[ref := node'], ref, m, Ok((m - {leaf})[toLeaf := m[leaf]]), None)
  {
    var m' := (m - {leaf})[toLeaf := m[leaf]];
    var node' := (h[ref] - {leaf})[toLeaf := h[ref][leaf]];
    NodeRewritten(h, ref, m, node', m', map k | k in m' :: if k == toLeaf then leaf else k);
  }

  lemma LeafSet(h: Heap, ref: Ref, m: Fields, leaf: string, value: Json)
    requires Represents(h, VObj(ref), Obj(m)) && Scalar(value)
    ensures Outcome(h, h[ref := h[ref][leaf := ScalarValue(value)]], ref, m, Ok(m[leaf := value]), None)
  {
    NodeRewritten(h, ref, m, h[ref][leaf := ScalarValue(value)], m[leaf := value], map k | k in m && k != leaf :: k);
  }

  lemma Defaulted(h: Heap, ref: Ref, m: Fields, leaf: string, value: Json)
    requires Represents(h, VObj(ref), Obj(m)) && Scalar(value)
    ensures ref in h
    ensures var h' := if leaf !in h[ref] || h[ref][leaf].VNull? then h[ref := h[ref][leaf := ScalarValue(value)]]
            else h;
            Outcome(h, h', ref, m, DefaultLeaf(value)(m, leaf), None)
  {
    assert leaf in m ==> (h[ref][leaf].VNull? <==> m[leaf].Null?);
    if Missing(m, leaf) { LeafSet(h, ref, m, leaf, value); } else { Unchanged(h, ref, m); }
  }

  lemma BelowField(h: Heap, h': Heap, ref: Ref, m: Fields, name: string, want: Result<Fields>, got: Option<Failure>)
    requires Represents(h, VObj(ref), Obj(m)) && name in m && m[name].Obj? && h[ref][name].VObj?
    requires Outcome(h, h', h[ref][name].ref, m[name].fields, want, got)
    ensures Outcome(h, h', ref, m, match want case Ok(s) => Ok(m[name := Obj(s)]) case Fail(e) => Fail(e), got)
  {
    if want.Ok? { FieldChanged(h, h', ref, m, name, Obj(want.value)); }
  }

  lemma BelowArray(h: Heap, h': Heap, ref: Ref, m: Fields, name: string, want: Result<seq<Json>>, got: Option<Failure>)
    requires Represents(h, VObj(ref), Obj(m)) && name in m && m[name].Arr? && h[ref][name].VArr?
    requires OutcomeEach(h, h', h[ref][name].elems, m[name].elems, want, got)
    ensures Outcome(h, h', ref, m, match want case Ok(es) => Ok(m[name := Arr(es)]) case Fail(e) => Fail(e), got)
  {
    if want.Ok? { FieldChanged(h, h', ref, m, name, Arr(want.value)); }
  }

  // One step of the loop over an array: `cur` is what the array stands for so far.
  ghost predicate Progress(h: Heap, h': Heap, arr: seq<Value>, es: seq<Json>, cur: seq<Json>, i: nat) {
    && i <= |es| == |cur| && cur[i..] == es[i..]
    && Represents(h, VArr(arr), Arr(es)) && Represents(h', VArr(arr), Arr(cur))
    && Changes(h, h', Refs(h, VArr(arr), Arr(es)), Refs(h', VArr(arr), Arr(cur)))
  }

  lemma ProgressStep(h: Heap, h': Heap, h'': Heap, arr: seq<Value>, es: seq<Json>, cur: seq<Json>, i: nat, m': Fields)
    requires Progress(h, h', arr, es, cur, i) && i < |es| && es[i].Obj?
    requires arr[i].VObj? && Outcome(h', h'', arr[i].ref, es[i].fields, Ok(m'), None)
    ensures Progress(h, h'', arr, es, cur[i := Obj(m')], i + 1)
  {
    assert cur[i] == cur[i..][0] == es[i];
    ElementChanged(h', h'', arr, cur, i, Obj(m'));
    RefsInHeap(h, VArr(arr), Arr(es));
    ChangesTrans(h, h', h'', Refs(h, VArr(arr), Arr(es)), Refs(h', VArr(arr), Arr(cur)),
      Refs(h'', VArr(arr), Arr(cur[i := Obj(m')])));
    assert cur[i := Obj(m')][i + 1..] == cur[i..][1..] == es[i + 1..];
  }

  lemma ProgressElement(h: Heap, h': Heap, arr: seq<Value>, es: seq<Json>, cur: seq<Json>, i: nat)
    requires Progress(h, h', arr, es, cur, i) && i < |es|
    ensures |arr| == |es| && Represents(h', arr[i], es[i]) && (arr[i].VObj? <==> es[i].Obj?)
  {
    assert cur[i] == cur[i..][0] == es[i];
  }

  ghost predicate ElementOutcome(h: Heap, h': Heap, arr: seq<Value>, es: seq<Json>, cur: seq<Json>, i: nat,
      want: Result<Fields>, got: Option<Failure>, next: seq<Json>)
  {
    match want
    case Ok(m') => got == None && i < |cur| && next == cur[i := Obj(m')] && Progress(h, h', arr, es, next, i + 1)
    case Fail(e) => got == Some(e)
  }

  // A finished prefix followed by what the rest yields.
  function Prefixed(done: seq<Json>, rest: Result<seq<Json>>): Result<seq<Json>> {
    match rest
    case Ok(es) => Ok(done + es)
    case Fail(e) => Fail(e)
  }

  class Runtime {
    var store: Heap
    var nextRef: Ref

    constructor ()
      ensures Valid() && store == map[]
    {
      store, nextRef := map[], 0;
    }

    ghost predicate Valid()
      reads this
    {
      forall r :: r in store ==> r < nextRef
    }

    method ApplyVerb(lib: Numerics, ref: Ref, leaf: string, verb: Verb, ghost m: Fields) returns (r: Option<Failure>)
      requires Valid() && Represents(store, VObj(ref), Obj(m)) && ScalarVerb(verb)
      modifies this`store
      ensures Valid() && Outcome(old(store), store, ref, m, LeafOf(lib, verb)(m, leaf), r)
    {
      match verb
      case RenameVerb(toLeaf, covered) =>
        r := RenameInPlace(ref, leaf, toLeaf, covered, m);
      case DefaultVerb(value) =>
        r := DefaultInPlace(ref, leaf, value, m);
      case CoerceVerb(target, covered) =>
        r := CoerceInPlace(lib, ref, leaf, target, covered, m);
    }

    method RenameInPlace(ref: Ref, leaf: string, toLeaf: string, covered: bool, ghost m: Fields)
        returns (r: Option<Failure>)
      requires Valid() && Represents(store, VObj(ref), Obj(m))
      modifies this`store
      ensures Valid() && Outcome(old(store), store, ref, m, RenameLeaf(toLeaf, covered)(m, leaf), r)
    {
      var parent := store[ref];
      if leaf !in parent {
        Unchanged(store, ref, m);
        return if covered then None else Some(Absent);
      }
      if toLeaf in parent {
        return Some(TargetPresent);
      }
      LeafRenamed(store, ref, m, leaf, toLeaf);
      store := store[ref := (parent - {leaf})[toLeaf := parent[leaf]]];
      return None;
    }

    method DefaultInPlace(ref: Ref, leaf: string, value: Json, ghost m: Fields) returns (r: Option<Failure>)
      requires Valid() && Represents(store, VObj(ref), Obj(m)) && Scalar(value)
      modifies this`store
      ensures Valid() && Outcome(old(store), store, ref, m, DefaultLeaf(value)(m, leaf), r)
    {
      Defaulted(store, ref, m, leaf, value);
      if leaf !in store[ref] || store[ref][leaf].VNull? {
        store := store[ref := store[ref][leaf := ScalarValue(value)]];
      }
      return None;
    }

    method CoerceInPlace(lib: Numerics, ref: Ref, leaf: string, target: string, covered: bool, ghost m: Fields)
        returns (r: Option<Failure>)
      requires Valid() && Represents(store, VObj(ref), Obj(m))
      modifies this`store
      ensures Valid() && Outcome(old(store), store, ref, m, CoerceLeaf(lib, target, covered)(m, leaf), r)
    {
      var parent := store[ref];
      if leaf !in parent {
        Unchanged(store, ref, m);
        return if covered then None else Some(Absent);
      }
      CoerceShallow(lib, store, parent[leaf], m[leaf], target);
      var coerced := CoerceValue(lib, Shallow(parent[leaf]), target);
      if coerced.Fail? {
        return Some(coerced.reason);
      }
      LeafSet(store, ref, m, leaf, coerced.value);
      store := store[ref := parent[leaf := ScalarValue(coerced.value)]];
      return None;
    }

    method WalkLeaves(lib: Numerics, ref: Ref, p: Path, opts: seq<Path>, verb: Verb, ghost m: Fields)
        returns (r: Option<Failure>)
      requires Valid() && Represents(store, VObj(ref), Obj(m)) && ScalarVerb(verb)
      modifies this`store
      ensures Valid() && Outcome(old(store), store, ref, m, Walk(m, p, opts, LeafOf(lib, verb)), r)
      decreases |p|, 0
    {
      if |p| == 0 {
        return Some(EmptyPath);
      }
      var name := p[0].name;
      if |p| == 1 {
        r := ApplyVerb(lib, ref, name, verb, m);
        return r;
      }
      if name !in store[ref] || store[ref][name].VNull? {
        Unchanged(store, ref, m);
        return if Covers(opts, p) then None else Some(Absent);
      }
      var val := store[ref][name];
      if p[0].isArray {
        if !val.VArr? {
          return Some(WrongShape);
        }
        ghost var before := store;
        r := WalkElements(lib, val.elems, p[1..], opts, verb, m[name].elems);
        BelowArray(before, store, ref, m, name, WalkEach(m[name].elems, p[1..], opts, LeafOf(lib, verb)), r);
        return r;
      }
      if !val.VObj? {
        return Some(WrongShape);
      }
      ghost var before := store;
      r := WalkLeaves(lib, val.ref, p[1..], opts, verb, m[name].fields);
      BelowField(before, store, ref, m, name, Walk(m[name].fields, p[1..], opts, LeafOf(lib, verb)), r);
    }

    // One element of the array; `h0` is the store the loop started from.
    method WalkElement(lib: Numerics, arr: seq<Value>, i: nat, p: Path, opts: seq<Path>, verb: Verb,
        ghost h0: Heap, ghost es: seq<Json>, ghost cur: seq<Json>) returns (r: Option<Failure>, ghost next: seq<Json>)
      requires Valid() && ScalarVerb(verb) && i < |arr| == |es| && Progress(h0, store, arr, es, cur, i)
      modifies this`store
      ensures Valid() && ElementOutcome(h0, store, arr, es, cur, i,
              if es[i].Obj? then Walk(es[i].fields, p, opts, LeafOf(lib, verb)) else Fail(WrongShape), r, next)
      decreases |p|, 1
    {
      next := cur;
      ProgressElement(h0, store, arr, es, cur, i);
      if !arr[i].VObj? {
        return Some(WrongShape), next;
      }
      ghost var before := store;
      r := WalkLeaves(lib, arr[i].ref, p, opts, verb, es[i].fields);
      ghost var want := Walk(es[i].fields, p, opts, LeafOf(lib, verb));
      if r.None? {
        ProgressStep(h0, before, store, arr, es, cur, i, want.value);
        next := cur[i := Obj(want.value)];
      }
    }

    method WalkElements(lib: Numerics, arr: seq<Value>, p: Path, opts: seq<Path>, verb: Verb, ghost es: seq<Json>)
        returns (r: Option<Failure>)
      requires Valid() && Represents(store, VArr(arr), Arr(es)) && ScalarVerb(verb)
      modifies this`store
      ensures Valid() && OutcomeEach(old(store), store, arr, es, WalkEach(es, p, opts, LeafOf(lib, verb)), r)
      decreases |p|, 2
    {
      ghost var f := LeafOf(lib, verb);
      ghost var cur := es;
      ghost var all := WalkEach(es, p, opts, f);
      LoopStart(store, arr, es, all);
      for i := 0 to |arr|
        invariant Valid() && LoopState(old(store), store, arr, es, cur, i, all, WalkEach(es[i..], p, opts, f))
      {
        assert es[i..][1..] == es[i + 1..];
        ghost var before, rest := store, WalkEach(es[i + 1..], p, opts, f);
        ghost var next;
        r, next := WalkElement(lib, arr, i, p, opts, verb, old(store), es, cur);
        if r.Some? {
          return r;
        }
        LoopStep(old(store), before, store, arr, es, cur, i, all, rest, next);
        cur := next;
      }
      LoopDone(old(store), store, arr, es, cur, all);
      return None;
    }

    method WalkLeavesEnsureObjects(lib: Numerics, ref: Ref, p: Path, verb: Verb, ghost m: Fields)
        returns (r: Option<Failure>)
      requires Valid() && Represents(store, VObj(ref), Obj(m)) && ScalarVerb(verb)
      modifies this
      ensures Valid() && Outcome(old(store), store, ref, m, WalkEnsure(m, p, LeafOf(lib, verb)), r)
      decreases |p|, 1
    {
      if |p| == 0 {
        return Some(EmptyPath);
      }
      var name := p[0].name;
      if |p| == 1 {
        r := ApplyVerb(lib, ref, name, verb, m);
        return r;
      }
      var missing := name !in store[ref] || store[ref][name].VNull?;
      if p[0].isArray {
        if missing {
          return Some(Absent);
        }
        if !store[ref][name].VArr? {
          return Some(WrongShape);
        }
        ghost var before := store;
        r := EnsureElements(lib, store[ref][name].elems, p[1..], verb, m[name].elems);
        BelowArray(before, store, ref, m, name, WalkEnsureEach(m[name].elems, p[1..], LeafOf(lib, verb)), r);
        return r;
      }
      if missing {
        r := EnsureBelowNew(lib, ref, p, verb, m);
        return r;
      }
      var val := store[ref][name];
      if !val.VObj? {
        return Some(WrongShape);
      }
      ghost var before := store;
      r := WalkLeavesEnsureObjects(lib, val.ref, p[1..], verb, m[name].fields);
      BelowField(before, store, ref, m, name, WalkEnsure(m[name].fields, p[1..], LeafOf(lib, verb)), r);
    }

    method CreateChild(ref: Ref, name: string, ghost m: Fields) returns (sub: Ref)
      requires Valid() && Represents(store, VObj(ref), Obj(m)) && Missing(m, name)
      modifies this
      ensures Valid() && Linked(old(store), store, ref, m, name, sub)
    {
      sub := nextRef;
      ChildCreated(store, ref, m, name, sub);
      nextRef := nextRef + 1;
      store := store[sub := map[]][ref := store[ref][name := VObj(sub)]];
    }

    // The missing or null intermediate is created in place, and the walk goes on below it.
    method EnsureBelowNew(lib: Numerics, ref: Ref, p: Path, verb: Verb, ghost m: Fields) returns (r: Option<Failure>)
      requires Valid() && Represents(store, VObj(ref), Obj(m)) && ScalarVerb(verb)
      requires |p| > 1 && Missing(m, p[0].name) && !p[0].isArray
      modifies this
      ensures Valid() && Outcome(old(store), store, ref, m, WalkEnsure(m, p, LeafOf(lib, verb)), r)
      decreases |p|, 0
    {
      var name := p[0].name;
      ghost var before := store;
      var sub := CreateChild(ref, name, m);
      ghost var created := store;
      r := WalkLeavesEnsureObjects(lib, sub, p[1..], verb, map[]);
      ghost var want := WalkEnsure(map[], p[1..], LeafOf(lib, verb));
      BelowField(created, store, ref, m[name := Obj(map[])], name, want, r);
      if want.Ok? {
        Overwritten(m, name, Obj(map[]), Obj(want.value));
        OutcomeTrans(before, created, store, ref, m, m[name := Obj(map[])], m[name := Obj(want.value)]);
      }
    }

    method EnsureElement(lib: Numerics, arr: seq<Value>, i: nat, p: Path, verb: Verb,
        ghost h0: Heap, ghost es: seq<Json>, ghost cur: seq<Json>) returns (r: Option<Failure>, ghost next: seq<Json>)
      requires Valid() && ScalarVerb(verb) && i < |arr| == |es| && Progress(h0, store, arr, es, cur, i)
      modifies this
      ensures Valid() && ElementOutcome(h0, store, arr, es, cur, i,
              if es[i].Obj? then WalkEnsure(es[i].fields, p, LeafOf(lib, verb)) else Fail(WrongShape), r, next)
      decreases |p|, 2
    {
      next := cur;
      ProgressElement(h0, store, arr, es, cur, i);
      if !arr[i].VObj? {
        return Some(WrongShape), next;
      }
      ghost var before := store;
      r := WalkLeavesEnsureObjects(lib, arr[i].ref, p, verb, es[i].fields);
      ghost var want := WalkEnsure(es[i].fields, p, LeafOf(lib, verb));
      if r.None? {
        ProgressStep(h0, before, store, arr, es, cur, i, want.value);
        next := cur[i := Obj(want.value)];
      }
    }

    method EnsureElements(lib: Numerics, arr: seq<Value>, p: Path, verb: Verb, ghost es: seq<Json>)
        returns (r: Option<Failure>)
      requires Valid() && Represents(store, VArr(arr), Arr(es)) && ScalarVerb(verb)
      modifies this
      ensures Valid() && OutcomeEach(old(store), store, arr, es, WalkEnsureEach(es, p, LeafOf(lib, verb)), r)
      decreases |p|, 3
    {
      ghost var f := LeafOf(lib, verb);
      ghost var cur := es;
      ghost var all := WalkEnsureEach(es, p, f);
      LoopStart(store, arr, es, all);
      for i := 0 to |arr|
        invariant Valid() && LoopState(old(store), store, arr, es, cur, i, all, WalkEnsureEach(es[i..], p, f))
      {
        assert es[i..][1..] == es[i + 1..];
        ghost var before, rest := store, WalkEnsureEach(es[i + 1..], p, f);
        ghost var next;
        r, next := EnsureElement(lib, arr, i, p, verb, old(store), es, cur);
        if r.Some? {
          return r;
        }
        LoopStep(old(store), before, store, arr, es, cur, i, all, rest, next);
        cur := next;
      }
      LoopDone(old(store), store, arr, es, cur, all);
      return None;
    }

    // One op; `opts` is the optionalize set met so far.
    method RunOp(lib: Numerics, op: Op, opts: seq<Path>, ref: Ref, ghost m: Fields) returns (r: Option<Failure>)
      requires Valid() && Represents(store, VObj(ref), Obj(m)) && WellFormed(op)
      modifies this
      ensures Valid() && Outcome(old(store), store, ref, m, Step(lib, op, opts, m), r)
    {
      match op
      case Optionalize(_) =>
        Unchanged(store, ref, m);
        return None;
      case Rename(from, to) =>
        r := WalkLeaves(lib, ref, from, opts, RenameVerb(to[|to| - 1].name, Covers(opts, from)), m);
      case Default(field, value) =>
        r := WalkLeavesEnsureObjects(lib, ref, field, DefaultVerb(value), m);
      case Coerce(field, target) =>
        r := WalkLeaves(lib, ref, field, opts, CoerceVerb(target, Covers(opts, field)), m);
    }

    // The loop over the ops; the optionalize set is local to the call and grows as stanzas are met.
    method RunOps(lib: Numerics, ops: seq<Op>, ref: Ref, ghost m: Fields) returns (r: Option<Failure>)
      requires Valid() && Represents(store, VObj(ref), Obj(m)) && AllWellFormed(ops)
      modifies this
      ensures Valid()
      ensures match Run(lib, ops, [], m)
              case Ok(m') => r == None && Represents(store, VObj(ref), Obj(m'))
              case Fail(e) => r == Some(e)
    {
      var opts: seq<Path> := [];
      ghost var end := m;
      for i := 0 to |ops|
        invariant Valid() && Represents(store, VObj(ref), Obj(end))
        invariant Run(lib, ops, [], m) == Run(lib, ops[i..], opts, end)
      {
        assert WellFormed(ops[i]) && ops[i..][1..] == ops[i + 1..];
        ghost var want := Step(lib, ops[i], opts, end);
        r := RunOp(lib, ops[i], opts, ref, end);
        if r.Some? {
          return r;
        }
        end := want.value;
        if ops[i].Optionalize? {
          opts := opts + [ops[i].field];
        } else {
          assert opts + Tolerated(ops[i]) == opts;
        }
      }
      return None;
    }

    // json.Unmarshal: the store gets a node per object of the tree, all of them new.
    method Unmarshal(j: Json) returns (v: Value)
      requires Valid()
      modifies this
      ensures Valid() && Represents(store, v, j) && Changes(old(store), store, {}, Refs(store, v, j))
      decreases j, 2
    {
      match j
      case Arr(es) =>
        v := UnmarshalElements(j);
      case Obj(m) =>
        v := UnmarshalFields(j);
      case _ =>
        v := ScalarValue(j);
    }

    method UnmarshalElements(j: Json) returns (v: Value)
      requires Valid() && j.Arr?
      modifies this
      ensures Valid() && Represents(store, v, j) && Changes(old(store), store, {}, Refs(store, v, j))
      decreases j, 0
    {
      var es := j.elems;
      var vs: seq<Value> := [];
      for i := 0 to |es|
        invariant Valid() && |vs| == i
        invariant Represents(store, VArr(vs), Arr(es[..i]))
        invariant Changes(old(store), store, {}, Refs(store, VArr(vs), Arr(es[..i])))
      {
        ghost var before := store;
        var next := Unmarshal(es[i]);
        ElementAdded(old(store), before, store, vs, es[..i], next, es[i]);
        assert es[..i + 1] == es[..i] + [es[i]];
        vs := vs + [next];
      }
      assert es[..|es|] == es;
      return VArr(vs);
    }

    method UnmarshalField(j: Json, k: string, node: Node, ghost h0: Heap) returns (node': Node)
      requires Valid() && j.Obj? && k in j.fields && k !in node && ReadSoFar(h0, store, node, j.fields)
      modifies this
      ensures Valid() && node'.Keys == node.Keys + {k} && ReadSoFar(h0, store, node', j.fields)
      decreases j, 0
    {
      ghost var before := store;
      var next := Unmarshal(j.fields[k]);
      FieldAdded(h0, before, store, node, j.fields, k, next);
      node' := node[k := next];
    }

    // The fields in any order; the object's node is stored once they are all there.
    method UnmarshalFields(j: Json) returns (v: Value)
      requires Valid() && j.Obj?
      modifies this
      ensures Valid() && Represents(store, v, j) && Changes(old(store), store, {}, Refs(store, v, j))
      decreases j, 1
    {
      var node: Node := map[];
      var keys := j.fields.Keys;
      while !(keys <= node.Keys)
        invariant node.Keys <= keys && Valid() && ReadSoFar(old(store), store, node, j.fields)
        decreases keys - node.Keys
      {
        var k :| k in keys && k !in node;
        node := UnmarshalField(j, k, node, old(store));
      }
      v := StoreNode(j, node, old(store));
    }

    method StoreNode(j: Json, node: Node, ghost h0: Heap) returns (v: Value)
      requires Valid() && j.Obj? && node.Keys == j.fields.Keys && ReadSoFar(h0, store, node, j.fields)
      modifies this
      ensures Valid() && Represents(store, v, j) && Changes(h0, store, {}, Refs(store, v, j))
    {
      var ref := nextRef;
      NodeStored(h0, store, node, j.fields, ref);
      nextRef := nextRef + 1;
      store := store[ref := node];
      return VObj(ref);
    }

    // json.Marshal, seen through the next decode.
    method Marshal(lib: Numerics, v: Value, ghost j: Json) returns (out: Result<Json>)
      requires Represents(store, v, j)
      ensures out == Encoded(lib, j)
      decreases j, 1
    {
      match v
      case VArr(vs) => out := MarshalElements(lib, vs, j);
      case VObj(ref) => out := MarshalFields(lib, ref, j);
      case VNumber(x) => return if x.Finite? then Ok(Number(x)) else Fail(NotEncodable);
      case VInteger(n) => return Ok(Number(lib.OfInt(n)));
      case VNull => return Ok(Null);
      case VBool(b) => return Ok(Bool(b));
      case VStr(s) => return Ok(Str(s));
    }

    method MarshalElements(lib: Numerics, vs: seq<Value>, ghost j: Json) returns (out: Result<Json>)
      requires Represents(store, VArr(vs), j)
      ensures out == Encoded(lib, j)
      decreases j, 0
    {
      var es: seq<Json> := [];
      for i := 0 to |vs|
        invariant |es| == i && forall k :: 0 <= k < i ==> Encoded(lib, j.elems[k]) == Ok(es[k])
      {
        var next := Marshal(lib, vs[i], j.elems[i]);
        if next.Fail? {
          return next;
        }
        es := es + [next.value];
      }
      assert es == ReencodeAll(lib, j.elems);
      return Ok(Arr(es));
    }

    method MarshalFields(lib: Numerics, ref: Ref, ghost j: Json) returns (out: Result<Json>)
      requires Represents(store, VObj(ref), j)
      ensures out == Encoded(lib, j)
      decreases j, 0
    {
      var node := store[ref];
      var fields: Fields := map[];
      var rest := node.Keys;
      while rest != {}
        invariant rest <= node.Keys && fields.Keys == node.Keys - rest
        invariant FieldsEncoded(lib, j.fields, fields)
        decreases rest
      {
        var k :| k in rest;
        var next := Marshal(lib, node[k], j.fields[k]);
        if next.Fail? {
          return next;
        }
        fields := fields[k := next.value];
        rest := rest - {k};
      }
      AllFieldsEncoded(lib, j.fields, fields);
      return Ok(Obj(fields));
    }
  }

  ghost predicate FieldsEncoded(lib: Numerics, m: Fields, fields: Fields) {
    forall k :: k in fields ==> k in m && Encoded(lib, m[k]) == Ok(fields[k])
  }

  lemma AllFieldsEncoded(lib: Numerics, m: Fields, fields: Fields)
    requires FieldsEncoded(lib, m, fields) && fields.Keys == m.Keys
    ensures Encoded(lib, Obj(m)) == Ok(Obj(fields))
  {
    assert fields == ReencodeFields(lib, m);
  }

  ghost function Encoded(lib: Numerics, j: Json): Result<Json> {
    if Encodable(j) then Ok(Reencode(lib, j)) else Fail(NotEncodable)
  }

  // `apply`, on the tree its body decodes to: the in-place runtime computes Transform.Apply.
  method ApplyBody(lib: Numerics, ops: seq<Op>, body: Json) returns (r: Result<Json>)
    requires AllWellFormed(ops)
    ensures r == Apply(lib, ops, body)
    ensures Meaning.Denotes(lib, ops, body, r)
  {
    Meaning.ApplyDenotes(lib, ops, body);
    if |ops| == 0 {
      return Ok(body);
    }
    if !body.Obj? {
      return Fail(NotAnObject);
    }
    var runtime := new Runtime();
    var root := runtime.Unmarshal(body);
    var failure := runtime.RunOps(lib, ops, root.ref, body.fields);
    if failure.Some? {
      return Fail(failure.value);
    }
    r := runtime.Marshal(lib, root, Obj(Run(lib, ops, [], body.fields).value));
  }

  lemma ElementAdded(h0: Heap, h: Heap, h': Heap, vs: seq<Value>, es: seq<Json>, v: Value, e: Json)
    requires Represents(h, VArr(vs), Arr(es)) && Changes(h0, h, {}, Refs(h, VArr(vs), Arr(es)))
    requires Represents(h', v, e) && Changes(h, h', {}, Refs(h', v, e))
    ensures Represents(h', VArr(vs + [v]), Arr(es + [e]))
    ensures Changes(h0, h', {}, Refs(h', VArr(vs + [v]), Arr(es + [e])))
  {
    forall i | 0 <= i < |es|
      ensures Represents(h', vs[i], es[i]) && Refs(h', vs[i], es[i]) == Refs(h, vs[i], es[i])
      ensures Refs(h, vs[i], es[i]) <= Refs(h, VArr(vs), Arr(es)) && Refs(h, vs[i], es[i]) <= h.Keys
    {
      RefsInHeap(h, vs[i], es[i]);
      RepresentsFramed(h, h', vs[i], es[i]);
    }
  }

  // The fields read so far, apart from each other and from everything that was there before.
  ghost predicate ReadSoFar(h0: Heap, h: Heap, node: Node, m: Fields) {
    && h0.Keys <= h.Keys && Agree(h0, h, h0.Keys)
    && (forall k :: k in node ==> k in m && Represents(h, node[k], m[k]) && Refs(h, node[k], m[k]) <= h.Keys - h0.Keys)
    && (forall k, l :: k in node && l in node && k != l ==>
        k in m && l in m && Refs(h, node[k], m[k]) !! Refs(h, node[l], m[l]))
  }

  lemma FieldAdded(h0: Heap, h: Heap, h': Heap, node: Node, m: Fields, k: string, v: Value)
    requires ReadSoFar(h0, h, node, m) && k in m && k !in node
    requires Represents(h', v, m[k]) && Changes(h, h', {}, Refs(h', v, m[k]))
    ensures ReadSoFar(h0, h', node[k := v], m)
  {
    forall l | l in node ensures Represents(h', node[l], m[l]) && Refs(h', node[l], m[l]) == Refs(h, node[l], m[l]) {
      RepresentsFramed(h, h', node[l], m[l]);
    }
  }

  lemma NodeStored(h0: Heap, h: Heap, node: Node, m: Fields, ref: Ref)
    requires ReadSoFar(h0, h, node, m) && node.Keys == m.Keys && ref !in h
    ensures Represents(h[ref := node], VObj(ref), Obj(m))
    ensures Changes(h0, h[ref := node], {}, Refs(h[ref := node], VObj(ref), Obj(m)))
  {
    var h' := h[ref := node];
    forall k | k in m ensures Represents(h', node[k], m[k]) && Refs(h', node[k], m[k]) == Refs(h, node[k], m[k]) {
      RepresentsFramed(h, h', node[k], m[k]);
    }
  }

  lemma Overwritten(m: Fields, name: string, first: Json, second: Json)
    ensures m[name := first][name := second] == m[name := second]
  {
  }

  lemma OutcomeTrans(h: Heap, h': Heap, h'': Heap, ref: Ref, m: Fields, m': Fields, m'': Fields)
    requires Represents(h, VObj(ref), Obj(m))
    requires Outcome(h, h', ref, m, Ok(m'), None) && Outcome(h', h'', ref, m', Ok(m''), None)
    ensures Outcome(h, h'', ref, m, Ok(m''), None)
  {
    RefsInHeap(h, VObj(ref), Obj(m));
    ChangesTrans(h, h', h'', Refs(h, VObj(ref), Obj(m)), Refs(h', VObj(ref), Obj(m')), Refs(h'', VObj(ref), Obj(m'')));
  }

  // The loop over an array: what is done is in `cur`, and the whole is what is done and the rest.
  ghost predicate LoopState(h0: Heap, h: Heap, arr: seq<Value>, es: seq<Json>, cur: seq<Json>, i: nat,
      all: Result<seq<Json>>, rest: Result<seq<Json>>)
  {
    Progress(h0, h, arr, es, cur, i) && all == Prefixed(cur[..i], rest)
  }

  lemma LoopStart(h: Heap, arr: seq<Value>, es: seq<Json>, all: Result<seq<Json>>)
    requires Represents(h, VArr(arr), Arr(es))
    ensures es[0..] == es && LoopState(h, h, arr, es, es, 0, all, all)
  {
    if all.Ok? { assert es[..0] + all.value == all.value; }
  }

  lemma LoopStep(h0: Heap, h: Heap, h': Heap, arr: seq<Value>, es: seq<Json>, cur: seq<Json>, i: nat,
      all: Result<seq<Json>>, rest: Result<seq<Json>>, next: seq<Json>)
    requires i < |es| && i < |next| && LoopState(h0, h, arr, es, cur, i, all, Prefixed([next[i]], rest))
    requires next == cur[i := next[i]] && Progress(h0, h', arr, es, next, i + 1)
    ensures LoopState(h0, h', arr, es, next, i + 1, all, rest)
  {
    assert next[..i + 1] == cur[..i] + [next[i]];
    if rest.Ok? { assert cur[..i] + ([next[i]] + rest.value) == cur[..i] + [next[i]] + rest.value; }
  }

  lemma LoopDone(h0: Heap, h: Heap, arr: seq<Value>, es: seq<Json>, cur: seq<Json>, all: Result<seq<Json>>)
    requires LoopState(h0, h, arr, es, cur, |arr|, all, Ok([]))
    ensures OutcomeEach(h0, h, arr, es, all, None)
  {
    assert cur[..|arr|] + [] == cur;
  }

  lemma EmptyObject(h: Heap, sub: Ref)
    requires sub in h && h[sub] == map[]
    ensures Represents(h, VObj(sub), Obj(map[])) && Refs(h, VObj(sub), Obj(map[])) == {sub}
  {
  }

  lemma ChildKept(h: Heap, h': Heap, ref: Ref, m: Fields, k: string)
    requires Represents(h, VObj(ref), Obj(m)) && k in m && Agree(h, h', h.Keys - {ref})
    ensures Represents(h', h[ref][k], m[k]) && Refs(h', h[ref][k], m[k]) == Refs(h, h[ref][k], m[k])
    ensures Refs(h, h[ref][k], m[k]) <= Refs(h, VObj(ref), Obj(m))
    ensures ref !in Refs(h', h[ref][k], m[k]) && Refs(h', h[ref][k], m[k]) <= h.Keys
  {
    RefsInHeap(h, h[ref][k], m[k]);
    RepresentsFramed(h, h', h[ref][k], m[k]);
  }

  // A fresh empty object under a missing or null field.
  ghost predicate Linked(h: Heap, h': Heap, ref: Ref, m: Fields, name: string, sub: Ref) {
    && Outcome(h, h', ref, m, Ok(m[name := Obj(map[])]), None)
    && ref in h' && name in h'[ref] && h'[ref][name] == VObj(sub) && Represents(h', VObj(sub), Obj(map[]))
  }

  // The object's fields, seen after the change.
  ghost predicate ChildrenKept(h: Heap, h': Heap, ref: Ref, m: Fields, sub: Ref) {
    ref in h && h[ref].Keys == m.Keys && forall k :: k in m ==>
      && Represents(h', h[ref][k], m[k]) && Refs(h', h[ref][k], m[k]) == Refs(h, h[ref][k], m[k])
      && Refs(h, h[ref][k], m[k]) <= Refs(h, VObj(ref), Obj(m))
      && ref !in Refs(h', h[ref][k], m[k]) && sub !in Refs(h', h[ref][k], m[k])
  }

  lemma ChildCreated(h: Heap, ref: Ref, m: Fields, name: string, sub: Ref)
    requires Represents(h, VObj(ref), Obj(m)) && sub !in h && Missing(m, name)
    ensures ref in h && Linked(h, h[sub := map[]][ref := h[ref][name := VObj(sub)]], ref, m, name, sub)
  {
    var h' := h[sub := map[]][ref := h[ref][name := VObj(sub)]];
    EmptyObject(h', sub);
    CreatedKept(h, h', ref, m, sub);
    CreatedRepresents(h, h', ref, m, name, sub);
    CreatedChanges(h, h', ref, m, name, sub);
  }

  lemma CreatedKept(h: Heap, h': Heap, ref: Ref, m: Fields, sub: Ref)
    requires Represents(h, VObj(ref), Obj(m)) && sub !in h && Agree(h, h', h.Keys - {ref})
    ensures ChildrenKept(h, h', ref, m, sub)
  {
    forall k | k in m
      ensures Represents(h', h[ref][k], m[k]) && Refs(h', h[ref][k], m[k]) == Refs(h, h[ref][k], m[k])
      ensures Refs(h, h[ref][k], m[k]) <= Refs(h, VObj(ref), Obj(m))
      ensures ref !in Refs(h', h[ref][k], m[k]) && sub !in Refs(h', h[ref][k], m[k])
    {
      ChildKept(h, h', ref, m, k);
    }
  }

  lemma CreatedChanges(h: Heap, h': Heap, ref: Ref, m: Fields, name: string, sub: Ref)
    requires ref in h && sub !in h && h' == h[sub := map[]][ref := h[ref][name := VObj(sub)]]
    requires ref in Refs(h, VObj(ref), Obj(m))
    requires Refs(h', VObj(ref), Obj(m[name := Obj(map[])])) <= Refs(h, VObj(ref), Obj(m)) + {sub}
    ensures Changes(h, h', Refs(h, VObj(ref), Obj(m)), Refs(h', VObj(ref), Obj(m[name := Obj(map[])])))
  {
  }

  lemma CreatedRepresents(h: Heap, h': Heap, ref: Ref, m: Fields, name: string, sub: Ref)
    requires Represents(h, VObj(ref), Obj(m)) && ref in h' && h'[ref] == h[ref][name := VObj(sub)] && ref != sub
    requires Represents(h', VObj(sub), Obj(map[])) && Refs(h', VObj(sub), Obj(map[])) == {sub}
    requires ChildrenKept(h, h', ref, m, sub)
    ensures Represents(h', VObj(ref), Obj(m[name := Obj(map[])]))
    ensures Refs(h', VObj(ref), Obj(m[name := Obj(map[])])) <= Refs(h, VObj(ref), Obj(m)) + {sub}
  {
    var m', node' := m[name := Obj(map[])], h'[ref];
    forall k | k in m'
      ensures Represents(h', node'[k], m'[k]) && ref !in Refs(h', node'[k], m'[k])
      ensures Refs(h', node'[k], m'[k]) == if k == name then {sub} else Refs(h, h[ref][k], m[k])
    {
    }
    forall k, l | k in m' && l in m' && k != l ensures Refs(h', node'[k], m'[k]) !! Refs(h', node'[l], m'[l]) {
      CreatedApart(h, h', ref, m, name, sub, k, l);
    }
  }

  lemma CreatedApart(h: Heap, h': Heap, ref: Ref, m: Fields, name: string, sub: Ref, k: string, l: string)
    requires Represents(h, VObj(ref), Obj(m)) && ref in h' && h'[ref] == h[ref][name := VObj(sub)]
    requires Refs(h', VObj(sub), Obj(map[])) == {sub} && ChildrenKept(h, h', ref, m, sub)
    requires k in m[name := Obj(map[])] && l in m[name := Obj(map[])] && k != l
    ensures var m' := m[name := Obj(map[])]; Refs(h', h'[ref][k], m'[k]) !! Refs(h', h'[ref][l], m'[l])
  {
    if k in m && l in m { assert Refs(h, h[ref][k], m[k]) !! Refs(h, h[ref][l], m[l]); }
  }
}
