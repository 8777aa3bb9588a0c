/**
 The decoded body as Go holds it: maps reached by reference, updated in place. `Represents` ties a
 value in the store to the tree it stands for; its references form a tree of their own, so an update
 below one child cannot be seen below another.
 */
module Store {
  import opened Json

  type Ref = nat

  datatype Value =
    | VNull | VBool(b: bool) | VNumber(x: Float) | VInteger(n: int) | VStr(s: string)
    | VArr(elems: seq<Value>)
    | VObj(ref: Ref)

  type Node = map<string, Value>
  type Heap = map<Ref, Node>

  // The references below v, following the tree j.
  ghost function Refs(h: Heap, v: Value, j: Json): set<Ref>
    decreases j
  {
    match j
    case Arr(es) => if v.VArr? then set i, r | 0 <= i < |es| && i < |v.elems| && r in Refs(h, v.elems[i], es[i]) ::
        r else {}
    case Obj(m) =>
      if v.VObj? && v.ref in h then
        {v.ref} + set k, r | k in m && k in h[v.ref] && r in Refs(h, h[v.ref][k], m[k]) :: r
      else {}
    case _ => {}
  }

  ghost predicate Represents(h: Heap, v: Value, j: Json)
    decreases j
  {
    match j
    case Null => v.VNull?
    case Bool(b) => v == VBool(b)
    case Number(x) => v == VNumber(x)
    case Integer(n) => v == VInteger(n)
    case Str(s) => v == VStr(s)
    case Arr(es) =>
      && v.VArr? && |v.elems| == |es|
      && (forall i :: 0 <= i < |es| ==> Represents(h, v.elems[i], es[i]))
      && (forall i, k :: 0 <= i < k < |es| ==> Refs(h, v.elems[i], es[i]) !! Refs(h, v.elems[k], es[k]))
    case Obj(m) =>
      && v.VObj? && v.ref in h && h[v.ref].Keys == m.Keys
      && (forall k :: k in m ==> Represents(h, h[v.ref][k], m[k]) && v.ref !in Refs(h, h[v.ref][k], m[k]))
      && (forall k, l :: k in m && l in m && k != l ==> Refs(h, h[v.ref][k], m[k]) !! Refs(h, h[v.ref][l], m[l]))
  }

  function ScalarValue(j: Json): Value
    requires Scalar(j)
  {
    match j
    case Null => VNull
    case Bool(b) => VBool(b)
    case Number(x) => VNumber(x)
    case Integer(n) => VInteger(n)
    case Str(s) => VStr(s)
  }

  lemma {:induction false} RefsInHeap(h: Heap, v: Value, j: Json)
    requires Represents(h, v, j)
    ensures Refs(h, v, j) <= h.Keys
    decreases j
  {
    match j
    case Arr(es) => forall i | 0 <= i < |es|
        ensures Refs(h, v.elems[i], es[i]) <= h.Keys { RefsInHeap(h, v.elems[i], es[i]); }
    case Obj(m) => forall k | k in m ensures Refs(h, h[v.ref][k], m[k]) <= h.Keys { RefsInHeap(h, h[v.ref][k], m[k]); }
    case _ =>
  }

  // h' agrees with h on these references.
  ghost predicate Agree(h: Heap, h': Heap, refs: set<Ref>) {
    forall r :: r in refs && r in h ==> r in h' && h'[r] == h[r]
  }

  lemma {:induction false} RepresentsFramed(h: Heap, h': Heap, v: Value, j: Json)
    requires Represents(h, v, j) && Agree(h, h', Refs(h, v, j))
    ensures Represents(h', v, j) && Refs(h', v, j) == Refs(h, v, j)
    decreases j
  {
    RefsInHeap(h, v, j);
    match j
    case Arr(es) =>
      forall i | 0 <= i < |es|
        ensures Represents(h', v.elems[i], es[i]) && Refs(h', v.elems[i], es[i]) == Refs(h, v.elems[i], es[i])
      {
        assert Refs(h, v.elems[i], es[i]) <= Refs(h, v, j);
        RepresentsFramed(h, h', v.elems[i], es[i]);
      }
    case Obj(m) =>
      assert v.ref in Refs(h, v, j) && h'[v.ref] == h[v.ref];
      forall k | k in m
        ensures Represents(h', h'[v.ref][k], m[k]) && Refs(h', h'[v.ref][k], m[k]) == Refs(h, h[v.ref][k], m[k])
      {
        assert Refs(h, h[v.ref][k], m[k]) <= Refs(h, v, j);
        RepresentsFramed(h, h', h[v.ref][k], m[k]);
      }
    case _ =>
  }

  // From h to h' only nodes in `own` changed, and the new references come from `own` or are fresh.
  ghost predicate Changes(h: Heap, h': Heap, own: set<Ref>, refs': set<Ref>) {
    && h.Keys <= h'.Keys && Agree(h, h', h.Keys - own)
    && refs' <= own + (h'.Keys - h.Keys)
  }

  lemma ChangesTrans(h: Heap, h': Heap, h'': Heap, own: set<Ref>, mid: set<Ref>, end: set<Ref>)
    requires own <= h.Keys && Changes(h, h', own, mid) && Changes(h', h'', mid, end)
    ensures Changes(h, h'', own, end)
  {
    forall r | r in h.Keys - own ensures r in h'' && h''[r] == h[r] {
      assert r in h' && h'[r] == h[r] && r !in mid;
    }
  }

  // A child's change seen from its siblings: nothing.
  lemma SiblingUnchanged(h: Heap, h': Heap, own: set<Ref>, refs': set<Ref>, v: Value, j: Json)
    requires Represents(h, v, j) && Refs(h, v, j) !! own && Changes(h, h', own, refs')
    ensures Represents(h', v, j) && Refs(h', v, j) == Refs(h, v, j) && Refs(h', v, j) !! refs'
  {
    RefsInHeap(h, v, j);
    RepresentsFramed(h, h', v, j);
  }

  // One element of an array changed below.
  lemma ElementChanged(h: Heap, h': Heap, vs: seq<Value>, es: seq<Json>, i: nat, e: Json)
    requires Represents(h, VArr(vs), Arr(es)) && i < |es|
    requires Represents(h', vs[i], e)
    requires Changes(h, h', Refs(h, vs[i], es[i]), Refs(h', vs[i], e))
    ensures Represents(h', VArr(vs), Arr(es[i := e]))
    ensures Changes(h, h', Refs(h, VArr(vs), Arr(es)), Refs(h', VArr(vs), Arr(es[i := e])))
  {
    var own, all := Refs(h, vs[i], es[i]), Refs(h, VArr(vs), Arr(es));
    var es' := es[i := e];
    assert own <= all;
    forall k | 0 <= k < |es| && k != i
      ensures Represents(h', vs[k], es'[k]) && Refs(h', vs[k], es'[k]) == Refs(h, vs[k], es[k])
      ensures Refs(h', vs[k], es'[k]) !! Refs(h', vs[i], e) && Refs(h, vs[k], es[k]) <= all
    {
      SiblingUnchanged(h, h', own, Refs(h', vs[i], e), vs[k], es[k]);
    }
  }

  lemma FieldSibling(h: Heap, h': Heap, ref: Ref, m: Fields, name: string, e: Json, k: string)
    requires Represents(h, VObj(ref), Obj(m)) && name in m && k in m && k != name
    requires Changes(h, h', Refs(h, h[ref][name], m[name]), Refs(h', h[ref][name], e))
    ensures ref in h' && h'[ref] == h[ref]
    ensures Represents(h', h[ref][k], m[k]) && Refs(h', h[ref][k], m[k]) == Refs(h, h[ref][k], m[k])
    ensures Refs(h', h[ref][k], m[k]) !! Refs(h', h[ref][name], e)
  {
    SiblingUnchanged(h, h', Refs(h, h[ref][name], m[name]), Refs(h', h[ref][name], e), h[ref][k], m[k]);
  }

  ghost predicate FieldWise(h: Heap, h': Heap, ref: Ref, m: Fields, name: string, e: Json)
    requires ref in h && name in m && h[ref].Keys == m.Keys
  {
    && ref in h' && h'[ref] == h[ref]
    && (forall k :: k in m && k != name ==>
          && Represents(h', h[ref][k], m[k]) && Refs(h', h[ref][k], m[k]) == Refs(h, h[ref][k], m[k])
          && Refs(h', h[ref][k], m[k]) !! Refs(h', h[ref][name], e))
  }

  lemma FieldsApart(h: Heap, h': Heap, ref: Ref, m: Fields, name: string, e: Json, k: string, l: string)
    requires Represents(h, VObj(ref), Obj(m)) && name in m && FieldWise(h, h', ref, m, name, e)
    requires k in m && l in m && k != l
    ensures var m' := m[name := e]; Refs(h', h[ref][k], m'[k]) !! Refs(h', h[ref][l], m'[l])
  {
    assert Refs(h, h[ref][k], m[k]) !! Refs(h, h[ref][l], m[l]);
  }

  lemma FieldRepresents(h: Heap, h': Heap, ref: Ref, m: Fields, name: string, e: Json)
    requires Represents(h, VObj(ref), Obj(m)) && name in m
    requires Represents(h', h[ref][name], e) && ref !in Refs(h', h[ref][name], e)
    requires FieldWise(h, h', ref, m, name, e)
    ensures Represents(h', VObj(ref), Obj(m[name := e]))
  {
    var m' := m[name := e];
    var node := h[ref];
    forall k | k in m' ensures Represents(h', node[k], m'[k]) && ref !in Refs(h', node[k], m'[k]) {}
    forall k, l | k in m' && l in m' && k != l ensures Refs(h', node[k], m'[k]) !! Refs(h', node[l], m'[l]) {
      FieldsApart(h, h', ref, m, name, e, k, l);
    }
  }

  lemma FieldRefs(h: Heap, h': Heap, ref: Ref, m: Fields, name: string, e: Json)
    requires Represents(h, VObj(ref), Obj(m)) && name in m
    requires FieldWise(h, h', ref, m, name, e)
    ensures Refs(h', VObj(ref), Obj(m[name := e])) <= Refs(h, VObj(ref), Obj(m)) + Refs(h', h[ref][name], e)
    ensures Refs(h, h[ref][name], m[name]) <= Refs(h, VObj(ref), Obj(m))
  {
    var m' := m[name := e];
    var node := h[ref];
    forall k | k in m && k != name ensures Refs(h', node[k], m'[k]) <= Refs(h, VObj(ref), Obj(m)) {
      assert Refs(h, node[k], m[k]) <= Refs(h, VObj(ref), Obj(m));
    }
  }

  // One field of an object changed below; the object's own node did not.
  lemma FieldChanged(h: Heap, h': Heap, ref: Ref, m: Fields, name: string, e: Json)
    requires Represents(h, VObj(ref), Obj(m)) && name in m
    requires Represents(h', h[ref][name], e)
    requires Changes(h, h', Refs(h, h[ref][name], m[name]), Refs(h', h[ref][name], e))
    ensures Represents(h', VObj(ref), Obj(m[name := e]))
    ensures Changes(h, h', Refs(h, VObj(ref), Obj(m)), Refs(h', VObj(ref), Obj(m[name := e])))
  {
    assert h'[ref] == h[ref];
    forall k | k in m && k != name
      ensures Represents(h', h[ref][k], m[k]) && Refs(h', h[ref][k], m[k]) == Refs(h, h[ref][k], m[k])
      ensures Refs(h', h[ref][k], m[k]) !! Refs(h', h[ref][name], e)
    {
      FieldSibling(h, h', ref, m, name, e, k);
    }
    FieldRepresents(h, h', ref, m, name, e);
    FieldRefs(h, h', ref, m, name, e);
  }

  // The object's own node is rewritten: every new child is an old child or a scalar, and no old
  // child is used twice.
  lemma NodeRewritten(h: Heap, ref: Ref, m: Fields, node': Node, m': Fields, origin: map<string, string>)
    requires Represents(h, VObj(ref), Obj(m)) && node'.Keys == m'.Keys
    requires forall k :: k in m' ==>
               if k in origin then origin[k] in m && node'[k] == h[ref][origin[k]] && m'[k] == m[origin[k]]
               else Scalar(m'[k]) && node'[k] == ScalarValue(m'[k])
    requires forall k, l :: k in m' && l in m' && k in origin && l in origin && k != l ==> origin[k] != origin[l]
    ensures Represents(h[ref := node'], VObj(ref), Obj(m'))
    ensures Changes(h, h[ref := node'], Refs(h, VObj(ref), Obj(m)), Refs(h[ref := node'], VObj(ref), Obj(m')))
  {
    var h' := h[ref := node'];
    var all := Refs(h, VObj(ref), Obj(m));
    forall k | k in m'
      ensures Represents(h', node'[k], m'[k])
      ensures Refs(h', node'[k], m'[k]) == if k in origin then Refs(h, h[ref][origin[k]], m[origin[k]]) else {}
      ensures ref !in Refs(h', node'[k], m'[k]) && Refs(h', node'[k], m'[k]) <= all
    {
      if k in origin { OldChildKept(h, ref, m, node', origin[k]); }
    }
    forall k, l | k in m' && l in m' && k != l ensures Refs(h', node'[k], m'[k]) !! Refs(h', node'[l], m'[l]) {
      if k in origin && l in origin { OldChildrenApart(h, ref, m, origin[k], origin[l]); }
    }
  }

  lemma OldChildrenApart(h: Heap, ref: Ref, m: Fields, k: string, l: string)
    requires Represents(h, VObj(ref), Obj(m)) && k in m && l in m && k != l
    ensures Refs(h, h[ref][k], m[k]) !! Refs(h, h[ref][l], m[l])
  {
  }

  lemma OldChildKept(h: Heap, ref: Ref, m: Fields, node': Node, k: string)
    requires Represents(h, VObj(ref), Obj(m)) && k in m
    ensures Represents(h[ref := node'], h[ref][k], m[k])
    ensures Refs(h[ref := node'], h[ref][k], m[k]) == Refs(h, h[ref][k], m[k])
    ensures ref !in Refs(h, h[ref][k], m[k]) && Refs(h, h[ref][k], m[k]) <= Refs(h, VObj(ref), Obj(m))
  {
    RepresentsFramed(h, h[ref := node'], h[ref][k], m[k]);
  }
}
