/**
 Schema collection (internal/bundlegen/bundlegen.go, collectSchemas): the component schemas that must
 become messages, found by a depth-first walk over references.
 */
module Schemas {
  import opened Json
  import opened Collections

  // The raw additionalProperties value, as far as the generator tells values apart.
  datatype Additional = Absent | False | True | SchemaForm(schema: Schema) | Other

  datatype Discriminator = NoDiscriminator | NullDiscriminator | Discriminated

  datatype Schema = Schema(
    ref: string, typ: string, format: string, nullable: bool,
    properties: Option<map<string, Schema>>, items: Option<Schema>,
    allOf: seq<Schema>, oneOf: seq<Schema>, anyOf: seq<Schema>,
    additional: Additional, discriminator: Discriminator)

  // components.schemas of one document.
  type Components = map<string, Schema>

  // --- classifiers ---

  function RefName(ref: string): string {
    if '/' in ref then RefName(ref[1..]) else ref
  }

  predicate HasProperties(sc: Schema) {
    sc.properties.Some? && sc.properties.value != map[]
  }

  predicate IsEmptySchema(sc: Schema) {
    && sc.ref == "" && sc.typ == "" && sc.format == "" && !sc.nullable && !HasProperties(sc) && sc.items.None?
    && sc.allOf == [] && sc.oneOf == [] && sc.anyOf == []
    && sc.additional.Absent? && sc.discriminator.NoDiscriminator?
  }

  predicate IsMessageComponent(sc: Schema) {
    sc.typ == "object" && sc.properties.Some?
  }

  predicate ScalarType(typ: string) {
    typ == "string" || typ == "boolean" || typ == "integer" || typ == "number"
  }

  // A typed dict's value: a $ref or a scalar.
  function MapValueSchema(a: Additional): Option<Schema> {
    if a.SchemaForm? && (a.schema.ref != "" || ScalarType(a.schema.typ)) then Some(a.schema) else None
  }

  predicate AdditionalOpen(a: Additional) {
    a.True? || (a.SchemaForm? && IsEmptySchema(a.schema))
  }

  predicate IsNullType(sc: Schema) {
    sc.typ == "null" && sc.ref == ""
  }

  // anyOf of the null marker and one $ref or scalar: the other member.
  function NullableAnyOf(sc: Schema): (r: Option<Schema>)
    ensures r.Some? ==> r.value in sc.anyOf && (r.value.ref != "" || ScalarType(r.value.typ))
  {
    if |sc.anyOf| != 2 then None
    else
      var a, b := sc.anyOf[0], sc.anyOf[1];
      var other := if !IsNullType(b) then b else a;
      if IsNullType(a) == IsNullType(b) then None
      else if other.ref != "" || ScalarType(other.typ) then Some(other)
      else None
  }

  predicate RejectUnsupported(sc: Schema) {
    if sc.allOf != [] then true
    else if sc.oneOf != [] || sc.anyOf != [] then false
    else if !sc.additional.Absent? && !sc.additional.False? then
      (MapValueSchema(sc.additional).None? && !AdditionalOpen(sc.additional)) || HasProperties(sc)
    else false
  }

  // The one component `walkRefs` visits for a schema, if any.
  function WalkTarget(sc: Schema): Option<string> {
    if sc.ref != "" then Some(RefName(sc.ref))
    else if sc.typ == "array" && sc.items.Some? && sc.items.value.ref != "" then Some(RefName(sc.items.value.ref))
    else if sc.typ == "object" then
      match MapValueSchema(sc.additional)
      case Some(v) => if v.ref != "" then Some(RefName(v.ref)) else None
      case None => None
    else
      match NullableAnyOf(sc)
      case Some(inner) => if inner.ref != "" then Some(RefName(inner.ref)) else None
      case None => None
  }

  // --- what a reference names, and what a schema pulls in ---

  // name is what follows the last '/' of the reference, the whole of it when there is none.
  ghost predicate IsNameOf(ref: string, name: string) {
    '/' !in name && (ref == name || exists path :: ref == path + "/" + name)
  }

  lemma {:induction false} RefNameExactly(ref: string, name: string)
    ensures RefName(ref) == name <==> IsNameOf(ref, name)
    decreases |ref|
  {
    if '/' in ref {
      RefNameExactly(ref[1..], name);
      if IsNameOf(ref, name) { NameOfRest(ref, name); }
      if IsNameOf(ref[1..], name) { NameOfWhole(ref, name); }
    } else {
      forall path ensures ref != path + "/" + name { assert (path + "/" + name)[|path|] == '/'; }
    }
  }

  lemma NameOfRest(ref: string, name: string)
    requires '/' in ref && IsNameOf(ref, name)
    ensures IsNameOf(ref[1..], name)
  {
    var path :| ref == path + "/" + name;
    if path == "" { assert ref[1..] == name; } else { assert ref[1..] == path[1..] + "/" + name; }
  }

  lemma NameOfWhole(ref: string, name: string)
    requires '/' in ref && IsNameOf(ref[1..], name)
    ensures IsNameOf(ref, name)
  {
    if ref[1..] == name {
      assert ref == "" + "/" + name;
    } else {
      var path :| ref[1..] == path + "/" + name;
      assert ref == [ref[0]] + path + "/" + name;
    }
  }

  // References of one document stand for the components they are written with.
  lemma RefNameOfPath(path: string, name: string)
    requires '/' !in name
    ensures RefName(path + "/" + name) == name
  {
    RefNameExactly(path + "/" + name, name);
  }

  // The one reference collection follows: the schema's own, its items', its dict values', or the one
  // beside the null marker.
  ghost predicate Pulls(sc: Schema, ref: string) {
    ref != "" &&
    (|| sc.ref == ref
     || (sc.ref == "" && sc.typ == "array" && sc.items.Some? && sc.items.value.ref == ref)
     || (sc.ref == "" && sc.typ == "object" && sc.additional.SchemaForm? && sc.additional.schema.ref == ref)
     || (sc.ref == "" && sc.typ != "object" && !(sc.typ == "array" && sc.items.Some? && sc.items.value.ref != "")
         && BesideNull(sc.anyOf, ref)))
  }

  // Two members, one the null marker and the other not, which is a reference.
  predicate BesideNull(members: seq<Schema>, ref: string) {
    && |members| == 2
    && exists k | 0 <= k < 2 :: IsNullType(members[k]) && !IsNullType(members[1 - k]) && members[1 - k].ref == ref
  }

  // The nullable idiom: two members, one of them the null marker, the other a reference or a scalar.
  lemma NullableExactly(sc: Schema, inner: Schema)
    ensures NullableAnyOf(sc) == Some(inner) <==>
              && |sc.anyOf| == 2
              && (exists k | 0 <= k < 2 ::
                  sc.anyOf[k].typ == "null" && sc.anyOf[k].ref == "" && !IsNullType(sc.anyOf[1 - k])
                  && sc.anyOf[1 - k] == inner)
              && (inner.ref != "" || inner.typ in {"string", "boolean", "integer", "number"})
  {
    if |sc.anyOf| == 2 {
      var a, b := sc.anyOf[0], sc.anyOf[1];
      assert sc.anyOf[1 - 0] == b && sc.anyOf[1 - 1] == a;
    }
  }

  lemma WalkTargetExactly(sc: Schema, t: string)
    ensures WalkTarget(sc) == Some(t) <==> exists ref :: Pulls(sc, ref) && IsNameOf(ref, t)
  {
    forall ref ensures RefName(ref) == t <==> IsNameOf(ref, t) { RefNameExactly(ref, t); }
    BesideNullExactly(sc);
    if WalkTarget(sc).Some? {
      var ref := if sc.ref != "" then sc.ref
                 else if sc.typ == "array" && sc.items.Some? && sc.items.value.ref != "" then sc.items.value.ref
                 else if sc.typ == "object" then sc.additional.schema.ref
                 else NullableAnyOf(sc).value.ref;
      assert Pulls(sc, ref) && WalkTarget(sc) == Some(RefName(ref));
    }
  }

  lemma BesideNullExactly(sc: Schema)
    ensures forall ref :: ref != "" ==>
              (BesideNull(sc.anyOf, ref) <==> NullableAnyOf(sc).Some? && NullableAnyOf(sc).value.ref == ref)
  {
    if |sc.anyOf| == 2 {
      var a, b := sc.anyOf[0], sc.anyOf[1];
      forall ref | ref != ""
        ensures BesideNull(sc.anyOf, ref) <==>
                (IsNullType(a) && !IsNullType(b) && b.ref == ref) || (IsNullType(b) && !IsNullType(a) && a.ref == ref)
      {
        assert sc.anyOf[1 - 0] == b && sc.anyOf[1 - 1] == a;
      }
    }
  }

  // Other keys than the declared ones are allowed in a form no proto field has.
  predicate Inexpressible(sc: Schema) {
    match sc.additional
    case Absent => false
    case False => false
    case True => HasProperties(sc)
    case Other => true
    case SchemaForm(v) =>
      HasProperties(sc) || !(v.ref != "" || v.typ in {"string", "boolean", "integer", "number"} || IsEmptySchema(v))
  }

  lemma RejectExactly(sc: Schema)
    ensures RejectUnsupported(sc) <==> sc.allOf != [] || (sc.oneOf == [] && sc.anyOf == [] && Inexpressible(sc))
  {
  }

  // --- reachability ---

  predicate PropertyRefersTo(sc: Schema, t: string) {
    sc.properties.Some? && exists p :: p in sc.properties.value && WalkTarget(sc.properties.value[p]) == Some(t)
  }

  // A message pulls in what its properties refer to, any other component what it refers to itself.
  predicate RefersTo(doc: Components, n: string, t: string) {
    n in doc && if IsMessageComponent(doc[n]) then PropertyRefersTo(doc[n], t) else WalkTarget(doc[n]) == Some(t)
  }

  // A component that makes collection fail.
  predicate Bad(doc: Components, n: string) {
    n !in doc || RejectUnsupported(doc[n]) ||
    (IsMessageComponent(doc[n]) && exists p ::
        p in doc[n].properties.value && RejectUnsupported(doc[n].properties.value[p]))
  }

  ghost predicate IsRefPath(doc: Components, path: seq<string>, a: string, b: string) {
    && path != [] && path[0] == a && path[|path| - 1] == b
    && forall i :: 0 <= i < |path| - 1 ==> RefersTo(doc, path[i], path[i + 1])
  }

  ghost predicate Reaches(doc: Components, a: string, b: string) {
    exists path :: IsRefPath(doc, path, a, b)
  }

  ghost predicate Reachable(doc: Components, roots: seq<string>, n: string) {
    exists r :: r in roots && Reaches(doc, r, n)
  }

  lemma ReachesSelf(doc: Components, a: string)
    ensures Reaches(doc, a, a)
  {
    assert IsRefPath(doc, [a], a, a);
  }

  lemma ReachesThrough(doc: Components, a: string, t: string, b: string)
    requires RefersTo(doc, a, t) && Reaches(doc, t, b)
    ensures Reaches(doc, a, b)
  {
    var path :| IsRefPath(doc, path, t, b);
    var longer := [a] + path;
    forall i | 0 <= i < |longer| - 1 ensures RefersTo(doc, longer[i], longer[i + 1]) {
      if i > 0 { assert longer[i] == path[i - 1] && longer[i + 1] == path[i]; }
    }
    assert IsRefPath(doc, longer, a, b);
  }

  // Closed under references, and free of bad components.
  ghost predicate ClosedGood(doc: Components, from: set<string>, known: set<string>) {
    forall n :: n in from ==> !Bad(doc, n) && forall t :: RefersTo(doc, n, t) ==> t in known
  }

  lemma {:induction false} ClosedContainsReachable(doc: Components, s: set<string>, path: seq<string>, a: string,
      b: string)
    requires ClosedGood(doc, s, s) && a in s && IsRefPath(doc, path, a, b)
    ensures b in s
    decreases |path|
  {
    if |path| > 1 {
      assert RefersTo(doc, path[0], path[1]);
      var rest := path[1..];
      forall i | 0 <= i < |rest| - 1 ensures RefersTo(doc, rest[i], rest[i + 1]) {
        assert RefersTo(doc, path[i + 1], path[i + 2]);
      }
      ClosedContainsReachable(doc, s, rest, path[1], b);
    }
  }

  // --- the walk ---

  // What a visit did: from `before` to `after`, everything new is reachable from `name` and, but for
  // the components still open, good and closed; the new message components were collected.
  ghost predicate Explored(doc: Components, name: string, open: set<string>, before: set<string>, after: set<string>,
      collected: set<string>, collected': set<string>)
  {
    && before <= after && ClosedGood(doc, after - before - open, after)
    && (forall n :: n in after - before ==> n in doc && Reaches(doc, name, n))
    && (forall n :: n in collected' <==>
        n in collected || (n in after - before && n in doc && IsMessageComponent(doc[n])))
  }

  lemma ExploredStep(doc: Components, name: string, target: string, open: set<string>, before: set<string>,
      seen: set<string>, after: set<string>, c: set<string>, c': set<string>, c'': set<string>)
    requires Explored(doc, name, open, before, seen, c, c') && Explored(doc, target, {}, seen, after, c', c'')
    requires RefersTo(doc, name, target)
    ensures Explored(doc, name, open, before, after, c, c'')
  {
    forall n | n in after - before ensures n in doc && Reaches(doc, name, n) {
      if n !in seen { ReachesThrough(doc, name, target, n); }
    }
    forall n | n in after - before - open ensures !Bad(doc, n) && forall t :: RefersTo(doc, n, t) ==> t in after {
      assert n in seen - before - open || n in after - seen;
    }
  }

  lemma ExploredClose(doc: Components, name: string, before: set<string>, after: set<string>, c: set<string>,
      c': set<string>)
    requires Explored(doc, name, {name}, before, after, c, c')
    requires !Bad(doc, name) && forall t :: RefersTo(doc, name, t) ==> t in after
    ensures Explored(doc, name, {}, before, after, c, c')
  {
  }

  class Collector {
    const doc: Components
    var collected: set<string>  // message components
    var visited: set<string>

    constructor (doc: Components)
      ensures this.doc == doc && collected == {} && visited == {}
    {
      this.doc := doc;
      collected, visited := {}, {};
    }

    // On failure `bad` is a reachable bad component.
    method Visit(name: string) returns (ok: bool, ghost bad: string)
      modifies this
      decreases |doc.Keys - visited|, 0
      ensures ok ==> name in visited && Explored(doc, name, {}, old(visited), visited, old(collected), collected)
      ensures !ok ==> Bad(doc, bad) && Reaches(doc, name, bad)
    {
      ReachesSelf(doc, name);
      if name in visited {
        return true, name;
      }
      ghost var before, kept := visited, collected;
      visited := visited + {name};
      if name !in doc {
        return false, name;
      }
      var sc := doc[name];
      if RejectUnsupported(sc) {
        return false, name;
      }
      assert doc.Keys - before == (doc.Keys - visited) + {name};
      if IsMessageComponent(sc) {
        collected := collected + {name};
        ok, bad := VisitProperties(name, before, kept);
        return ok, bad;
      }
      var target := WalkTarget(sc);
      if target.Some? {
        ghost var seen := visited;
        ok, bad := Visit(target.value);
        if !ok {
          ReachesThrough(doc, name, target.value, bad);
          return false, bad;
        }
        ExploredStep(doc, name, target.value, {name}, before, seen, visited, kept, kept, collected);
      }
      ExploredClose(doc, name, before, visited, kept, collected);
      return true, name;
    }

    // Takes the properties in any order, as a Go map yields them.
    method VisitProperties(name: string, ghost before: set<string>, ghost kept: set<string>)
        returns (ok: bool, ghost bad: string)
      requires name in doc && IsMessageComponent(doc[name]) && !RejectUnsupported(doc[name])
      requires name in visited && Explored(doc, name, {name}, before, visited, kept, collected)
      modifies this
      decreases |doc.Keys - visited|, 1
      ensures ok ==> name in visited && Explored(doc, name, {}, before, visited, kept, collected)
      ensures !ok ==> Bad(doc, bad) && Reaches(doc, name, bad)
    {
      ReachesSelf(doc, name);
      var properties := doc[name].properties.value;
      var rest := properties.Keys;
      while rest != {}
        invariant rest <= properties.Keys
        invariant old(visited) <= visited && Explored(doc, name, {name}, before, visited, kept, collected)
        invariant forall p :: p in properties && p !in rest ==> PropertyDone(properties[p], visited)
        decreases |rest|
      {
        var p :| p in rest;
        if RejectUnsupported(properties[p]) {
          return false, name;
        }
        var target := WalkTarget(properties[p]);
        if target.Some? {
          assert RefersTo(doc, name, target.value);
          SubsetSize(doc.Keys - visited, doc.Keys - old(visited));
          ghost var seen, had := visited, collected;
          ok, bad := Visit(target.value);
          if !ok {
            ReachesThrough(doc, name, target.value, bad);
            return false, bad;
          }
          ExploredStep(doc, name, target.value, {name}, before, seen, visited, kept, had, collected);
        }
        rest := rest - {p};
      }
      ExploredClose(doc, name, before, visited, kept, collected);
      return true, name;
    }
  }

  predicate PropertyDone(prop: Schema, visited: set<string>) {
    !RejectUnsupported(prop) && (WalkTarget(prop).Some? ==> WalkTarget(prop).value in visited)
  }

  // What collection returns: the reachable message components, exactly.
  ghost predicate CollectedExactly(doc: Components, roots: seq<string>, out: Components) {
    && (forall n :: n in out <==> Reachable(doc, roots, n) && n in doc && IsMessageComponent(doc[n]))
    && (forall n :: n in out ==> n in doc && out[n] == doc[n])
  }

  // It fails exactly when a reachable component is undefined or unsupported. On success `all` is the
  // whole set of reachable components.
  method CollectSchemas(doc: Components, roots: seq<string>) returns (out: Option<Components>, ghost all: set<string>)
    ensures out.Some? <==> forall n :: Reachable(doc, roots, n) ==> !Bad(doc, n)
    ensures out.Some? ==> CollectedExactly(doc, roots, out.value)
    ensures out.Some? ==> ClosedGood(doc, all, all) && forall n :: n in all <==> Reachable(doc, roots, n)
  {
    var c := new Collector(doc);
    for i := 0 to |roots|
      invariant fresh(c) && c.doc == doc
      invariant ClosedGood(doc, c.visited, c.visited)
      invariant forall k :: 0 <= k < i ==> roots[k] in c.visited
      invariant forall n :: n in c.visited ==> Reachable(doc, roots, n)
      invariant forall n :: n in c.collected <==> n in c.visited && IsMessageComponent(doc[n])
    {
      assert roots[i] in roots;
      var ok, bad := c.Visit(roots[i]);
      if !ok {
        assert Reachable(doc, roots, bad);
        return None, {};
      }
    }
    all := c.visited;
    forall n ensures n in all <==> Reachable(doc, roots, n) {
      if Reachable(doc, roots, n) {
        var r :| r in roots && Reaches(doc, r, n);
        var path :| IsRefPath(doc, path, r, n);
        ClosedContainsReachable(doc, all, path, r, n);
      }
    }
    out := Some(map n | n in c.collected :: doc[n]);
  }
}
