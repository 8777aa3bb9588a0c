/**
 The shim drafter (internal/bundlegen/drift.go, draftDirection): stanzas that reshape one version's
 body into the next one's. A draft with nothing left to the operator really does the reshaping.
 */
module Drift {
  import opened Json
  import opened Transform
  import opened PathText
  import opened Order
  import opened Schemas
  import opened Matching
  import opened Lowering
  import opened Collections
  import PathCheck
  import FieldForms

  type Shape = map<string, Schema>

  // The primitive type token of a schema, "" for anything else.
  function PrimitiveType(sc: Schema): string {
    if sc.ref != "" then ""
    else if sc.typ == "string" || sc.typ == "boolean" then sc.typ
    else if sc.typ == "integer" then (if sc.format == "int64" then "int64" else "int32")
    else if sc.typ == "number" then (if sc.format == "float" then "float" else "double")
    else ""
  }

  function TypeOf(shape: Shape, name: string): string {
    if name in shape then PrimitiveType(shape[name]) else ""
  }

  function ZeroForSchema(sc: Schema): Json {
    if sc.typ == "string" then Str("")
    else if sc.typ == "boolean" then Bool(false)
    else if sc.typ == "integer" || sc.typ == "number" then Integer(0)
    else if sc.typ == "array" then Arr([])
    else if sc.typ == "object" then Obj(map[])
    else Str("")
  }

  function RemoveChar(s: string, c: char): string {
    if s == "" then "" else (if s[0] == c then "" else [s[0]]) + RemoveChar(s[1..], c)
  }

  // `lower` is strings.ToLower.
  function NormalizeFieldName(lower: string -> string, s: string): string {
    RemoveChar(RemoveChar(lower(s), '_'), '-')
  }

  // --- the two passes ---

  function CaseKey(lower: string -> string, shape: Shape): KeyFn {
    (name: string) =>
      var norm, typ := NormalizeFieldName(lower, name), TypeOf(shape, name);
      if norm == "" || typ == "" then None else Some(FieldKey(norm, typ))
  }

  function TypeKey(shape: Shape): KeyFn {
    (name: string) => if TypeOf(shape, name) == "" then None else Some(FieldKey("", TypeOf(shape, name)))
  }

  method MatchCaseRenames(lower: string -> string, removed: seq<string>, added: seq<string>, from: Shape, to: Shape)
    returns (pairs: seq<Pair>, leftR: seq<string>, leftA: seq<string>)
    requires StrictlySorted(removed) && StrictlySorted(added)
    ensures Matched(removed, added, CaseKey(lower, from), CaseKey(lower, to), pairs, leftR, leftA)
    ensures Saturated(removed, added, CaseKey(lower, from), CaseKey(lower, to), pairs)
  {
    pairs, leftR, leftA := MatchByKey(removed, added, CaseKey(lower, from), CaseKey(lower, to));
  }

  method MatchAmbiguousPairs(removed: seq<string>, added: seq<string>, from: Shape, to: Shape)
    returns (pairs: seq<Pair>, leftR: seq<string>, leftA: seq<string>)
    requires StrictlySorted(removed) && StrictlySorted(added)
    ensures Matched(removed, added, TypeKey(from), TypeKey(to), pairs, leftR, leftA)
    ensures Saturated(removed, added, TypeKey(from), TypeKey(to), pairs)
  {
    pairs, leftR, leftA := MatchByKey(removed, added, TypeKey(from), TypeKey(to));
  }

  // --- the draft ---

  datatype Stanza =
    | RenameStanza(from: string, to: string)
    | DefaultStanza(field: string, value: Json)
    | CoerceStanza(field: string, target: string)

  // notes: the removed fields the verbs cannot drop.
  datatype Draft = Draft(stanzas: seq<Stanza>, candidates: seq<Pair>, notes: seq<string>)

  function Renames(pairs: seq<Pair>): seq<Stanza> {
    seq(|pairs|, i requires 0 <= i < |pairs| => RenameStanza(pairs[i].from, pairs[i].to))
  }

  function Defaults(to: Shape, names: seq<string>): seq<Stanza> {
    seq(|names|, i requires 0 <= i < |names| => DefaultStanza(names[i],
        if names[i] in to then ZeroForSchema(to[names[i]]) else Str("")))
  }

  function Coerces(to: Shape, names: seq<string>): seq<Stanza> {
    seq(|names|, i requires 0 <= i < |names| => CoerceStanza(names[i], TypeOf(to, names[i])))
  }

  predicate TypeChanged(from: Shape, to: Shape, name: string) {
    name in to && TypeOf(from, name) != "" && TypeOf(to, name) != "" && TypeOf(from, name) != TypeOf(to, name)
  }

  // The drafter's intermediate lists, in the order it computes them.
  datatype Trace = Trace(removed: seq<string>, added: seq<string>, renames: seq<Pair>, restR: seq<string>,
      restA: seq<string>,
    defaulted: seq<string>, coerced: seq<string>)

  ghost predicate Listed(names: seq<string>, shape: Shape, other: Shape) {
    StrictlySorted(names) && forall x :: x in names <==> x in shape && x !in other
  }

  ghost predicate Changed(names: seq<string>, from: Shape, to: Shape) {
    StrictlySorted(names) && forall x :: x in names <==> x in from && TypeChanged(from, to, x)
  }

  // How a draft is made up: renames, then defaults, then coerces, from the two passes in turn, each of
  // them one-to-one and as large as it can be. In strict mode the first pass is skipped.
  ghost predicate DraftOf(lower: string -> string, from: Shape, to: Shape, strict: bool, d: Draft, t: Trace) {
    && Listed(t.removed, from, to) && Listed(t.added, to, from)
    && (if strict then t.renames == [] && t.restR == t.removed && t.restA == t.added
        else Matched(t.removed, t.added, CaseKey(lower, from), CaseKey(lower, to), t.renames, t.restR, t.restA)
             && Saturated(t.removed, t.added, CaseKey(lower, from), CaseKey(lower, to), t.renames))
    && Matched(t.restR, t.restA, TypeKey(from), TypeKey(to), d.candidates, d.notes, t.defaulted)
    && Saturated(t.restR, t.restA, TypeKey(from), TypeKey(to), d.candidates)
    && Changed(t.coerced, from, to)
    && d.stanzas == Renames(t.renames) + Defaults(to, t.defaulted) + Coerces(to, t.coerced)
  }

  ghost predicate Drafted(lower: string -> string, from: Shape, to: Shape, strict: bool, d: Draft) {
    exists t :: DraftOf(lower, from, to, strict, d, t)
  }

  method DraftDirection(lower: string -> string, from: Shape, to: Shape, strict: bool) returns (d: Draft)
    ensures Drafted(lower, from, to, strict, d)
  {
    var fromNames := SortedKeys(from.Keys);
    var toNames := SortedKeys(to.Keys);
    var removed := Absentees(fromNames, to);
    var added := Absentees(toNames, from);
    var pairs: seq<Pair> := [];
    var restR, restA := removed, added;
    if !strict {
      pairs, restR, restA := MatchCaseRenames(lower, removed, added, from, to);
      WithoutSorted(removed, Froms(pairs));
      WithoutSorted(added, Tos(pairs));
    }
    var candidates, notes, defaulted := MatchAmbiguousPairs(restR, restA, from, to);
    var coerced := FindTypeChanges(fromNames, from, to);
    d := Draft(Renames(pairs) + Defaults(to, defaulted) + Coerces(to, coerced), candidates, notes);
    assert DraftOf(lower, from, to, strict, d, Trace(removed, added, pairs, restR, restA, defaulted, coerced));
  }

  method FindTypeChanges(names: seq<string>, from: Shape, to: Shape) returns (r: seq<string>)
    requires StrictlySorted(names) && forall x :: x in names <==> x in from
    ensures Changed(r, from, to)
  {
    r := [];
    for i := 0 to |names|
      invariant StrictlySorted(r) && forall x :: x in r <==> x in names[..i] && TypeChanged(from, to, x)
    {
      assert names[..i + 1] == names[..i] + [names[i]];
      if TypeChanged(from, to, names[i]) {
        forall k | 0 <= k < |r| ensures Less(r[k], names[i]) { assert r[k] in names[..i]; }
        r := r + [names[i]];
      }
    }
    assert names[..|names|] == names;
  }

  method Absentees(names: seq<string>, shape: Shape) returns (r: seq<string>)
    requires StrictlySorted(names)
    ensures StrictlySorted(r) && forall x :: x in r <==> x in names && x !in shape
  {
    r := [];
    for i := 0 to |names|
      invariant StrictlySorted(r) && forall x :: x in r <==> x in names[..i] && x !in shape
    {
      assert names[..i + 1] == names[..i] + [names[i]];
      if names[i] !in shape {
        forall k | 0 <= k < |r| ensures Less(r[k], names[i]) { assert r[k] in names[..i]; }
        r := r + [names[i]];
      }
    }
    assert names[..|names|] == names;
  }

  // --- what the passes compare ---

  // The letters that count: neither '_' nor '-'.
  function Counts(c: char): bool {
    c != '_' && c != '-'
  }

  lemma NormalizeExactly(lower: string -> string, s: string)
    ensures NormalizeFieldName(lower, s) == Filter(Counts, lower(s))
  {
    RemovedTwice(lower(s));
  }

  lemma {:induction false} RemovedTwice(s: string)
    ensures RemoveChar(RemoveChar(s, '_'), '-') == Filter(Counts, s)
    decreases |s|
  {
    if s != "" {
      RemovedTwice(s[1..]);
      var rest := RemoveChar(s[1..], '_');
      if s[0] == '_' {
        assert RemoveChar(s, '_') == rest && Filter(Counts, s) == Filter(Counts, s[1..]);
      } else {
        assert RemoveChar(s, '_') == [s[0]] + rest && ([s[0]] + rest)[1..] == rest;
      }
    }
  }

  // Two scalar schemas have one token exactly when they lower to one proto type; nothing else has one.
  lemma TokenExactly(a: Schema, b: Schema)
    ensures PrimitiveType(a) != "" <==> a.ref == "" && ScalarType(a.typ)
    ensures PrimitiveType(a) != "" && PrimitiveType(b) != "" ==>
              (PrimitiveType(a) == PrimitiveType(b) <==> ScalarOf(a.typ, a.format) == ScalarOf(b.typ, b.format))
  {
  }

  // A rename moves a removed field to an added one with its normalised name and its scalar type; a
  // candidate at least agrees in the type.
  ghost predicate Comparable(from: Shape, to: Shape, p: Pair) {
    && p.from in from && p.from !in to && p.to in to && p.to !in from
    && TypeOf(from, p.from) != "" && TypeOf(from, p.from) == TypeOf(to, p.to)
  }

  lemma PairsCompare(lower: string -> string, from: Shape, to: Shape, strict: bool, d: Draft, t: Trace)
    requires DraftOf(lower, from, to, strict, d, t)
    ensures forall i :: 0 <= i < |t.renames| ==>
              && Comparable(from, to, t.renames[i]) && Filter(Counts, lower(t.renames[i].from)) != ""
              && Filter(Counts, lower(t.renames[i].from)) == Filter(Counts, lower(t.renames[i].to))
    ensures forall i :: 0 <= i < |d.candidates| ==> Comparable(from, to, d.candidates[i])
  {
    if !strict {
      PairsListed(t.removed, t.added, CaseKey(lower, from), CaseKey(lower, to), t.renames, t.restR, t.restA);
      WithoutMembers(t.removed, Froms(t.renames));
      WithoutMembers(t.added, Tos(t.renames));
    }
    PairsListed(t.restR, t.restA, TypeKey(from), TypeKey(to), d.candidates, d.notes, t.defaulted);
    forall i | 0 <= i < |t.renames|
      ensures && Comparable(from, to, t.renames[i]) && Filter(Counts, lower(t.renames[i].from)) != ""
              && Filter(Counts, lower(t.renames[i].from)) == Filter(Counts, lower(t.renames[i].to))
    {
      NormalizeExactly(lower, t.renames[i].from);
      NormalizeExactly(lower, t.renames[i].to);
    }
  }

  lemma PairsListed(removed: seq<string>, added: seq<string>, keyR: KeyFn, keyA: KeyFn, pairs: seq<Pair>,
      leftR: seq<string>, leftA: seq<string>)
    requires Matched(removed, added, keyR, keyA, pairs, leftR, leftA)
    ensures forall i :: 0 <= i < |pairs| ==>
              && pairs[i].from in removed && pairs[i].to in added
              && keyR(pairs[i].from).Some? && keyR(pairs[i].from) == keyA(pairs[i].to)
  {
    WithoutMembers(removed, leftR);
    forall i | 0 <= i < |pairs| ensures pairs[i].from in removed {
      assert Froms(pairs)[i] in Froms(pairs);
    }
  }

  // Where the new version has no property named "", no removed and added field are left over that the
  // passes could have paired: on name and type by the first, on the type by the second.
  lemma LeftoversDiffer(lower: string -> string, from: Shape, to: Shape, strict: bool, d: Draft, t: Trace)
    requires DraftOf(lower, from, to, strict, d, t) && "" !in to
    ensures forall r, a :: !strict && r in t.restR && a in t.restA ==>
              !(TypeOf(from, r) != "" && TypeOf(from, r) == TypeOf(to, a) && Filter(Counts, lower(r)) != ""
                && Filter(Counts, lower(r)) == Filter(Counts, lower(a)))
    ensures forall r, a :: r in d.notes && a in t.defaulted ==>
              !(TypeOf(from, r) != "" && TypeOf(from, r) == TypeOf(to, a))
  {
    if !strict {
      WithoutSorted(t.removed, Froms(t.renames));
      WithoutSorted(t.added, Tos(t.renames));
      WithoutMembers(t.added, Tos(t.renames));
    }
    forall r, a | !strict && r in t.restR && a in t.restA
      ensures !(TypeOf(from, r) != "" && TypeOf(from, r) == TypeOf(to, a) && Filter(Counts, lower(r)) != ""
                && Filter(Counts, lower(r)) == Filter(Counts, lower(a)))
    {
      NormalizeExactly(lower, r);
      NormalizeExactly(lower, a);
      if CaseKey(lower, from)(r).Some? {
        NothingLeftToPair(t.removed, t.added, CaseKey(lower, from), CaseKey(lower, to), t.renames, t.restR,
            t.restA, r, a);
      }
    }
    forall r, a | r in d.notes && a in t.defaulted
      ensures !(TypeOf(from, r) != "" && TypeOf(from, r) == TypeOf(to, a))
    {
      if TypeKey(from)(r).Some? {
        NothingLeftToPair(t.restR, t.restA, TypeKey(from), TypeKey(to), d.candidates, d.notes, t.defaulted, r, a);
      }
    }
  }

  // A type change is one between two scalar proto types.
  lemma TypeChangedExactly(from: Shape, to: Shape, name: string)
    ensures TypeChanged(from, to, name) <==>
              && name in from && name in to && from[name].ref == "" && to[name].ref == ""
              && ScalarType(from[name].typ) && ScalarType(to[name].typ)
              && ScalarOf(from[name].typ, from[name].format) != ScalarOf(to[name].typ, to[name].format)
  {
    if name in from && name in to { TokenExactly(from[name], to[name]); }
  }

  // The zero of a property, by its type; a schema without a known one gets the empty text.
  lemma ZeroForms(sc: Schema)
    ensures sc.typ == "string" ==> ZeroForSchema(sc) == Str("")
    ensures sc.typ == "boolean" ==> ZeroForSchema(sc) == Bool(false)
    ensures sc.typ == "integer" || sc.typ == "number" ==> ZeroForSchema(sc) == Integer(0)
    ensures sc.typ == "array" ==> ZeroForSchema(sc) == Arr([])
    ensures sc.typ == "object" ==> ZeroForSchema(sc) == Obj(map[])
    ensures sc.typ !in {"string", "boolean", "integer", "number", "array", "object"} ==> ZeroForSchema(sc) == Str("")
  {
  }

  // Once written out, a typed zero is a value of its type.
  lemma ZeroHasItsType(lib: Numerics, sc: Schema)
    requires lib.round(0) == 0.0
    requires sc.typ in {"string", "boolean", "integer", "number", "array", "object"}
    ensures FieldForms.OfType(sc, Reencode(lib, ZeroForSchema(sc)), false)
  {
  }

  const TEXT := Schema("", "string", "", false, None, None, [], [], [], Additional.Absent, NoDiscriminator)

  // A new version with a property named "" of the same type: whatever the ambiguous pass returns pairs
  // nothing, although a pair is there to be had.
  lemma EmptyNameBeatsPass(pairs: seq<Pair>, leftR: seq<string>, leftA: seq<string>)
    requires var from, to := map["a" := TEXT], map["" := TEXT, "b" := TEXT];
             && Matched(["a"], ["", "b"], TypeKey(from), TypeKey(to), pairs, leftR, leftA)
             && Saturated(["a"], ["", "b"], TypeKey(from), TypeKey(to), pairs)
    ensures var from, to := map["a" := TEXT], map["" := TEXT, "b" := TEXT];
            pairs == [] && IsMatching(["a"], ["", "b"], TypeKey(from), TypeKey(to), [Pair("a", "b")])
  {
    var from, to := map["a" := TEXT], map["" := TEXT, "b" := TEXT];
    var k, added := FieldKey("", "string"), ["", "b"];
    assert TypeKey(to)("") == Some(k) && added[0] == "" && added[1] == "b";
    assert Blocked(added, TypeKey(to), k) && Count(Froms(pairs), TypeKey(from), k) == 0;
    FirstCounts(pairs, TypeKey(from), k);
    assert TypeKey(to)("b") == Some(k) && TypeKey(from)("a") == Some(k);
  }

  // --- what the loader makes of a stanza ---

  ghost predicate PathOf(text: string, p: Path) {
    WellFormedPath(p) && Print(p) == text
  }

  // Which side of a contract a stanza is installed on, and the message of that side.
  datatype Side = RequestSide | ResponseSide

  datatype Target = Target(side: Side, registry: PathCheck.Registry, message: string)

  // The descriptor check on a path that addresses the contract's own shape.
  ghost predicate Described(t: Target, p: Path) {
    && PathCheck.Closed(t.registry) && t.message in t.registry
    && PathCheck.Check(t.registry, t.message, p, 0).Accepted?
  }

  // The loader accepts the stanza as this op (bundle.toOps). On the request side it checks what a
  // rename or coerce reads against the message, on the response side what a rename or default writes.
  ghost predicate LoadsAs(t: Target, s: Stanza, op: Op) {
    match s
    case RenameStanza(from, to) =>
      && from != to && op.Rename? && PathOf(from, op.from) && PathOf(to, op.to)
          && SameParentDifferentLeaf(op.from, op.to)
      && Described(t, if t.side.RequestSide? then op.from else op.to)
    case DefaultStanza(field, v) =>
      && Scalar(v) && op.Default? && PathOf(field, op.field) && op.value == v
      && (t.side.ResponseSide? ==> Described(t, op.field))
    case CoerceStanza(field, target) =>
      && (target == "string" || target == "number" || target == "bool")
      && op.Coerce? && PathOf(field, op.field) && op.target == target
      && (t.side.RequestSide? ==> Described(t, op.field))
  }

  // The message has a field for every property of the shape: what the generator builds.
  ghost predicate Describes(t: Target, shape: Shape) {
    && PathCheck.Closed(t.registry) && t.message in t.registry
    && forall k :: k in shape ==> exists f :: f in t.registry[t.message].fields && f.jsonName == k
  }

  // Stanzas on the request side reshape the contract's own shape, those on the response side into it.
  function OwnShape(t: Target, from: Shape, to: Shape): Shape {
    if t.side.RequestSide? then from else to
  }

  lemma PlainIsDescribed(t: Target, shape: Shape, name: string)
    requires Describes(t, shape) && name in shape
    ensures Described(t, Plain(name))
  {
    var fields := t.registry[t.message].fields;
    assert PathCheck.ByJsonName(fields, name).Some?;
    var f := PathCheck.FieldFor(fields, name).value;
    assert f in fields;
  }

  function Plain(name: string): Path {
    [Segment(name, false)]
  }

  lemma PlainPath(name: string)
    requires LegalName(name)
    ensures PathOf(name, Plain(name))
  {
    assert Texts(Plain(name)) == [name];
  }

  // A drafted coerce carries an OpenAPI type token; the loader knows only three targets. So it loads
  // exactly when the new type is string.
  lemma DraftedCoerceLoadsExactly(t: Target, from: Shape, to: Shape, name: string)
    requires LegalName(name) && TypeChanged(from, to, name) && Describes(t, OwnShape(t, from, to))
    ensures (exists op :: LoadsAs(t, CoerceStanza(name, TypeOf(to, name)), op)) <==> to[name].typ == "string"
  {
    PlainPath(name);
    if to[name].typ == "string" {
      PlainIsDescribed(t, OwnShape(t, from, to), name);
      assert LoadsAs(t, CoerceStanza(name, TypeOf(to, name)), Coerce(Plain(name), "string"));
    }
  }
}
