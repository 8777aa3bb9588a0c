/**
 Drafted shims at work: a draft with nothing left to the operator loads, and reshapes every body of
 the old shape into one of the new shape without ever failing.
 */
module DriftLaws {
  import opened Json
  import opened Transform
  import opened PathText
  import opened Order
  import opened Schemas
  import opened Matching
  import opened Drift
  import FusionLaws
  import PathCheck
  import Descriptors

  ghost predicate Distinct(s: seq<string>) {
    forall i, j :: 0 <= i < j < |s| ==> s[i] != s[j]
  }

  // --- renames ---

  // Distinct keys of obj move to distinct new keys.
  ghost predicate Movable(obj: Fields, pairs: seq<Pair>) {
    && (forall i :: 0 <= i < |pairs| ==> pairs[i].from in obj && pairs[i].to !in obj)
    && (forall i, j :: 0 <= i < j < |pairs| ==> pairs[i].from != pairs[j].from && pairs[i].to != pairs[j].to)
  }

  function Moved1(obj: Fields, p: Pair): Fields
    requires p.from in obj
  {
    (obj - {p.from})[p.to := obj[p.from]]
  }

  lemma MovableRest(obj: Fields, pairs: seq<Pair>)
    requires pairs != [] && Movable(obj, pairs)
    ensures Movable(Moved1(obj, pairs[0]), pairs[1..])
  {
    var rest := pairs[1..];
    forall i | 0 <= i < |rest| ensures rest[i] == pairs[i + 1] && pairs[0].from != rest[i].from
        && pairs[0].to != rest[i].to {}
  }

  function Moved(obj: Fields, pairs: seq<Pair>): Fields
    requires Movable(obj, pairs)
    decreases |pairs|
  {
    if pairs == [] then obj
    else
      MovableRest(obj, pairs);
      Moved(Moved1(obj, pairs[0]), pairs[1..])
  }

  lemma {:induction false} MovedKeeps(obj: Fields, pairs: seq<Pair>, k: string)
    requires Movable(obj, pairs) && k in obj && forall i :: 0 <= i < |pairs| ==> pairs[i].from != k
    ensures k in Moved(obj, pairs) && Moved(obj, pairs)[k] == obj[k]
    decreases |pairs|
  {
    if pairs != [] {
      MovableRest(obj, pairs);
      MovedKeeps(Moved1(obj, pairs[0]), pairs[1..], k);
    }
  }

  lemma {:induction false} MovedArrives(obj: Fields, pairs: seq<Pair>, i: nat)
    requires Movable(obj, pairs) && i < |pairs|
    ensures pairs[i].to in Moved(obj, pairs) && Moved(obj, pairs)[pairs[i].to] == obj[pairs[i].from]
    decreases |pairs|
  {
    MovableRest(obj, pairs);
    var next, rest := Moved1(obj, pairs[0]), pairs[1..];
    if i == 0 {
      forall n | 0 <= n < |rest| ensures rest[n].from != pairs[0].to { assert rest[n] == pairs[n + 1]; }
      MovedKeeps(next, rest, pairs[0].to);
    } else {
      MovedArrives(next, rest, i - 1);
    }
  }

  lemma {:induction false} MovedOnly(obj: Fields, pairs: seq<Pair>, k: string)
    requires Movable(obj, pairs) && k in Moved(obj, pairs)
    ensures || (k in obj && forall i :: 0 <= i < |pairs| ==> pairs[i].from != k)
            || exists i :: 0 <= i < |pairs| && pairs[i].to == k
    decreases |pairs|
  {
    if pairs != [] {
      MovableRest(obj, pairs);
      var next, rest := Moved1(obj, pairs[0]), pairs[1..];
      MovedOnly(next, rest, k);
      if i :| 0 <= i < |rest| && rest[i].to == k {
        assert pairs[i + 1].to == k;
      } else {
        forall i | 0 < i < |pairs| ensures pairs[i].from != k { assert pairs[i] == rest[i - 1]; }
      }
    }
  }

  function RenameOps(pairs: seq<Pair>): seq<Op> {
    seq(|pairs|, i requires 0 <= i < |pairs| => Rename(Plain(pairs[i].from), Plain(pairs[i].to)))
  }

  lemma {:induction false} RenamesRun(lib: Numerics, pairs: seq<Pair>, obj: Fields)
    requires Movable(obj, pairs)
    ensures AllWellFormed(RenameOps(pairs)) && Run(lib, RenameOps(pairs), [], obj) == Ok(Moved(obj, pairs))
    decreases |pairs|
  {
    var ops := RenameOps(pairs);
    if pairs != [] {
      var f, t := pairs[0].from, pairs[0].to;
      var next := Moved1(obj, pairs[0]);
      MovableRest(obj, pairs);
      RenamesRun(lib, pairs[1..], next);
      assert ops[0] == Rename(Plain(f), Plain(t)) && ops[1..] == RenameOps(pairs[1..]);
      assert Walk(obj, Plain(f), [], RenameLeaf(t, Covers([], Plain(f)))) == Ok(next);
      assert Step(lib, ops[0], [], obj) == Ok(next) && [] + Tolerated(ops[0]) == [];
    }
  }

  // --- defaults ---

  function ZeroAt(to: Shape, n: string): Json {
    if n in to then ZeroForSchema(to[n]) else Str("")
  }

  function DefaultOps(names: seq<string>, to: Shape): seq<Op> {
    seq(|names|, i requires 0 <= i < |names| => Default(Plain(names[i]), ZeroAt(to, names[i])))
  }

  function Filled(obj: Fields, names: seq<string>, to: Shape): Fields
    decreases |names|
  {
    if names == [] then obj else Filled(obj[names[0] := ZeroAt(to, names[0])], names[1..], to)
  }

  lemma {:induction false} FilledKeeps(obj: Fields, names: seq<string>, to: Shape, k: string)
    requires k !in names
    ensures (k in Filled(obj, names, to) <==> k in obj) && (k in obj ==> Filled(obj, names, to)[k] == obj[k])
    decreases |names|
  {
    if names != [] { FilledKeeps(obj[names[0] := ZeroAt(to, names[0])], names[1..], to, k); }
  }

  lemma {:induction false} FilledFills(obj: Fields, names: seq<string>, to: Shape, k: string)
    requires k in names
    ensures k in Filled(obj, names, to) && Filled(obj, names, to)[k] == ZeroAt(to, k)
    decreases |names|
  {
    var next := obj[names[0] := ZeroAt(to, names[0])];
    assert names == [names[0]] + names[1..];
    if k in names[1..] { FilledFills(next, names[1..], to, k); } else { FilledKeeps(next, names[1..], to, k); }
  }

  lemma {:induction false} DefaultsRun(lib: Numerics, names: seq<string>, to: Shape, opts: seq<Path>, obj: Fields)
    requires Distinct(names) && forall n :: n in names ==> n !in obj && Scalar(ZeroAt(to, n))
    ensures AllWellFormed(DefaultOps(names, to))
            && Run(lib, DefaultOps(names, to), opts, obj) == Ok(Filled(obj, names, to))
    decreases |names|
  {
    var ops := DefaultOps(names, to);
    if names != [] {
      var n, rest := names[0], names[1..];
      var next := obj[n := ZeroAt(to, n)];
      forall x | x in rest ensures x in names && x !in next {
        var i :| 0 <= i < |rest| && rest[i] == x;
        assert names[i + 1] == x && names[0] != names[i + 1];
      }
      forall i, j | 0 <= i < j < |rest| ensures rest[i] != rest[j] { assert names[i + 1] != names[j + 1]; }
      DefaultsRun(lib, rest, to, opts, next);
      assert n in names && ops[0] == Default(Plain(n), ZeroAt(to, n)) && ops[1..] == DefaultOps(rest, to);
      assert WalkEnsure(obj, Plain(n), DefaultLeaf(ZeroAt(to, n))) == Ok(next);
      assert Step(lib, ops[0], opts, obj) == Ok(next) && opts + Tolerated(ops[0]) == opts;
    }
  }

  // --- a complete draft ---

  // Nothing is left to the operator.
  ghost predicate Complete(d: Draft) {
    d.candidates == [] && d.notes == [] && forall i :: 0 <= i < |d.stanzas| ==> !d.stanzas[i].CoerceStanza?
  }

  ghost predicate IsTarget(renames: seq<Pair>, k: string) {
    exists i :: 0 <= i < |renames| && renames[i].to == k
  }

  ghost predicate IsSource(renames: seq<Pair>, k: string) {
    exists i :: 0 <= i < |renames| && renames[i].from == k
  }

  // Every removed field is renamed, and every added one renamed to or defaulted.
  ghost predicate Plan(from: Shape, to: Shape, renames: seq<Pair>, defaulted: seq<string>) {
    && (forall i :: 0 <= i < |renames| ==>
          renames[i].from in from && renames[i].from !in to && renames[i].to in to && renames[i].to !in from)
    && (forall i, j :: 0 <= i < j < |renames| ==> renames[i].from != renames[j].from && renames[i].to != renames[j].to)
    && (forall k :: k in from && k !in to ==> IsSource(renames, k))
    && Distinct(defaulted) && forall k :: k in defaulted <==> k in to && k !in from && !IsTarget(renames, k)
  }

  lemma {:induction false} WithoutNothing(s: seq<string>)
    ensures Without(s, []) == s
    decreases |s|
  {
    if s != [] { WithoutNothing(s[1..]); }
  }

  lemma CoercesShow(to: Shape, t: Trace, stanzas: seq<Stanza>)
    requires stanzas == Renames(t.renames) + Defaults(to, t.defaulted) + Coerces(to, t.coerced)
    ensures t.coerced != [] ==> exists i :: 0 <= i < |stanzas| && stanzas[i].CoerceStanza?
  {
    if t.coerced != [] {
      assert stanzas[|stanzas| - 1] == Coerces(to, t.coerced)[|t.coerced| - 1];
    }
  }

  lemma CompleteTrace(lower: string -> string, from: Shape, to: Shape, strict: bool, d: Draft, t: Trace)
    requires DraftOf(lower, from, to, strict, d, t) && Complete(d)
    ensures Listed(t.removed, from, to) && Listed(t.added, to, from)
    ensures Froms(t.renames) == t.removed && t.defaulted == Without(t.added, Tos(t.renames))
    ensures Distinct(Tos(t.renames)) && forall x :: x in Tos(t.renames) ==> x in t.added
    ensures d.stanzas == Renames(t.renames) + Defaults(to, t.defaulted)
  {
    NothingPaired(t.restR, t.restA, TypeKey(from), TypeKey(to), t.defaulted);
    CoercesShow(to, t, d.stanzas);
    if strict {
      WithoutNothing(t.added);
      assert Froms(t.renames) == [] && Tos(t.renames) == [];
    } else {
      AllRenamed(t.removed, t.added, CaseKey(lower, from), CaseKey(lower, to), t.renames, t.restA);
    }
  }

  // A pass without pairs or leftovers had nothing to match.
  lemma NothingPaired(restR: seq<string>, restA: seq<string>, keyR: KeyFn, keyA: KeyFn, leftA: seq<string>)
    requires Matched(restR, restA, keyR, keyA, [], [], leftA)
    ensures restR == [] && leftA == restA
  {
    assert Froms([]) == [] && Tos([]) == [];
    WithoutNothing(restR);
    WithoutNothing(restA);
  }

  // A pass without leftovers paired every removed field.
  lemma AllRenamed(removed: seq<string>, added: seq<string>, keyR: KeyFn, keyA: KeyFn, pairs: seq<Pair>,
      leftA: seq<string>)
    requires Matched(removed, added, keyR, keyA, pairs, [], leftA)
    ensures Froms(pairs) == removed && leftA == Without(added, Tos(pairs))
    ensures Distinct(Tos(pairs)) && forall x :: x in Tos(pairs) ==> x in added
  {
    WithoutNothing(removed);
  }

  lemma PlanFromLists(from: Shape, to: Shape, removed: seq<string>, added: seq<string>, renames: seq<Pair>,
      defaulted: seq<string>)
    requires Listed(removed, from, to) && Listed(added, to, from)
    requires Froms(renames) == removed && defaulted == Without(added, Tos(renames))
    requires Distinct(Tos(renames)) && forall x :: x in Tos(renames) ==> x in added
    ensures Plan(from, to, renames, defaulted)
  {
    SortedDistinct(removed);
    WithoutMembers(added, Tos(renames));
    WithoutSorted(added, Tos(renames));
    SortedDistinct(defaulted);
    forall i | 0 <= i < |renames| ensures renames[i].from in removed && renames[i].to in added {
      assert Froms(renames)[i] in removed && Tos(renames)[i] in Tos(renames);
    }
    forall i, j | 0 <= i < j < |renames| ensures renames[i].from != renames[j].from && renames[i].to != renames[j].to {
      assert Froms(renames)[i] != Froms(renames)[j] && Tos(renames)[i] != Tos(renames)[j];
    }
    forall k ensures k in Tos(renames) <==> IsTarget(renames, k) {
      if i :| 0 <= i < |renames| && renames[i].to == k { assert Tos(renames)[i] == k; }
    }
    forall k | k in from && k !in to ensures IsSource(renames, k) {
      assert k in removed;
      var i :| 0 <= i < |renames| && Froms(renames)[i] == k;
      assert renames[i].from == k;
    }
  }

  // --- the result ---

  // The body after a draft: exactly the fields of the new shape, every kept field with its value and
  // every stanza carried out.
  ghost predicate Reshaped(lib: Numerics, from: Shape, to: Shape, stanzas: seq<Stanza>, obj: Fields, r: Fields) {
    && r.Keys == to.Keys
    && (forall k :: k in from && k in to && k in obj ==> r[k] == obj[k])
    && AllCarriedOut(lib, stanzas, obj, r)
  }

  ghost predicate AllCarriedOut(lib: Numerics, stanzas: seq<Stanza>, obj: Fields, r: Fields) {
    forall i :: 0 <= i < |stanzas| ==> CarriedOut(lib, stanzas[i], obj, r)
  }

  ghost predicate CarriedOut(lib: Numerics, s: Stanza, obj: Fields, r: Fields) {
    match s
    case RenameStanza(from, to) => from in obj && to in r && r[to] == obj[from]
    case DefaultStanza(field, value) => field in r && r[field] == Reencode(lib, value)
    case CoerceStanza(_, _) => false
  }

  lemma PlanIsMovable(from: Shape, to: Shape, renames: seq<Pair>, defaulted: seq<string>, obj: Fields)
    requires Plan(from, to, renames, defaulted) && obj.Keys == from.Keys
    ensures Movable(obj, renames)
  {
  }

  lemma MovedKeys(from: Shape, to: Shape, renames: seq<Pair>, defaulted: seq<string>, obj: Fields, k: string)
    requires Plan(from, to, renames, defaulted) && obj.Keys == from.Keys && Movable(obj, renames)
    ensures k in Moved(obj, renames) <==> (k in from && k in to) || IsTarget(renames, k)
    ensures k in from && k in to ==> k in Moved(obj, renames) && Moved(obj, renames)[k] == obj[k]
  {
    if k in from && k in to {
      MovedKeeps(obj, renames, k);
    } else if IsTarget(renames, k) {
      var i :| 0 <= i < |renames| && renames[i].to == k;
      MovedArrives(obj, renames, i);
    } else {
      if k in from { assert IsSource(renames, k); }
      if k in Moved(obj, renames) { MovedOnly(obj, renames, k); }
    }
  }

  function Result(obj: Fields, to: Shape, renames: seq<Pair>, defaulted: seq<string>): Fields
    requires Movable(obj, renames)
  {
    Filled(Moved(obj, renames), defaulted, to)
  }

  lemma ResultKeys(from: Shape, to: Shape, renames: seq<Pair>, defaulted: seq<string>, obj: Fields, k: string)
    requires Plan(from, to, renames, defaulted) && obj.Keys == from.Keys && Movable(obj, renames)
    ensures k in Result(obj, to, renames, defaulted) <==> k in to
    ensures k in from && k in to ==>
            k in Result(obj, to, renames, defaulted) && Result(obj, to, renames, defaulted)[k] == obj[k]
    ensures k in defaulted ==>
            k in Result(obj, to, renames, defaulted) && Result(obj, to, renames, defaulted)[k] == ZeroAt(to, k)
  {
    MovedKeys(from, to, renames, defaulted, obj, k);
    if k in defaulted {
      FilledFills(Moved(obj, renames), defaulted, to, k);
    } else {
      FilledKeeps(Moved(obj, renames), defaulted, to, k);
    }
  }

  lemma ResultRenamed(from: Shape, to: Shape, renames: seq<Pair>, defaulted: seq<string>, obj: Fields, i: nat)
    requires Plan(from, to, renames, defaulted) && obj.Keys == from.Keys && Movable(obj, renames) && i < |renames|
    ensures renames[i].to in Result(obj, to, renames, defaulted)
    ensures Result(obj, to, renames, defaulted)[renames[i].to] == obj[renames[i].from]
  {
    MovedArrives(obj, renames, i);
    assert IsTarget(renames, renames[i].to);
    FilledKeeps(Moved(obj, renames), defaulted, to, renames[i].to);
  }

  lemma ResultEncodes(from: Shape, to: Shape, renames: seq<Pair>, defaulted: seq<string>, obj: Fields, k: string)
    requires Plan(from, to, renames, defaulted) && Decoded(Obj(obj)) && obj.Keys == from.Keys && Movable(obj, renames)
    requires forall n :: n in defaulted ==> Scalar(ZeroAt(to, n))
    requires k in Result(obj, to, renames, defaulted)
    ensures Encodable(Result(obj, to, renames, defaulted)[k])
  {
    ResultKeys(from, to, renames, defaulted, obj, k);
    if k !in from && k !in defaulted {
      var i :| 0 <= i < |renames| && renames[i].to == k;
      ResultRenamed(from, to, renames, defaulted, obj, i);
    }
  }

  lemma ResultIsReshaped(lib: Numerics, from: Shape, to: Shape, renames: seq<Pair>, defaulted: seq<string>, obj: Fields)
    requires Plan(from, to, renames, defaulted) && Decoded(Obj(obj)) && obj.Keys == from.Keys && Movable(obj, renames)
    requires forall n :: n in defaulted ==> Scalar(ZeroAt(to, n))
    ensures Encodable(Obj(Result(obj, to, renames, defaulted)))
    ensures Reshaped(lib, from, to, Renames(renames) + Defaults(to, defaulted), obj,
            ReencodeFields(lib, Result(obj, to, renames, defaulted)))
  {
    var r := Result(obj, to, renames, defaulted);
    forall k ensures k in r <==> k in to { ResultKeys(from, to, renames, defaulted, obj, k); }
    assert r.Keys == to.Keys;
    forall k | k in r ensures Encodable(r[k]) { ResultEncodes(from, to, renames, defaulted, obj, k); }
    forall k | k in from && k in to ensures Reencode(lib, r[k]) == obj[k] {
      ResultKeys(from, to, renames, defaulted, obj, k);
      ReencodeIdentity(lib, obj[k]);
    }
    StanzasCarriedOut(lib, from, to, renames, defaulted, obj);
  }

  lemma StanzasCarriedOut(lib: Numerics, from: Shape, to: Shape, renames: seq<Pair>, defaulted: seq<string>,
      obj: Fields)
    requires Plan(from, to, renames, defaulted) && Decoded(Obj(obj)) && obj.Keys == from.Keys && Movable(obj, renames)
    ensures AllCarriedOut(lib, Renames(renames) + Defaults(to, defaulted), obj,
            ReencodeFields(lib, Result(obj, to, renames, defaulted)))
  {
    var r := ReencodeFields(lib, Result(obj, to, renames, defaulted));
    forall i | 0 <= i < |renames| ensures CarriedOut(lib, RenameStanza(renames[i].from, renames[i].to), obj, r) {
      RenameCarriedOut(lib, from, to, renames, defaulted, obj, i);
    }
    forall n | n in defaulted ensures CarriedOut(lib, DefaultStanza(n, ZeroAt(to, n)), obj, r) {
      DefaultCarriedOut(lib, from, to, renames, defaulted, obj, n);
    }
    PartsCarriedOut(lib, to, renames, defaulted, obj, r);
  }

  lemma PartsCarriedOut(lib: Numerics, to: Shape, renames: seq<Pair>, defaulted: seq<string>, obj: Fields, r: Fields)
    requires forall i :: 0 <= i < |renames| ==> CarriedOut(lib, RenameStanza(renames[i].from, renames[i].to), obj, r)
    requires forall n :: n in defaulted ==> CarriedOut(lib, DefaultStanza(n, ZeroAt(to, n)), obj, r)
    ensures AllCarriedOut(lib, Renames(renames) + Defaults(to, defaulted), obj, r)
  {
    var stanzas := Renames(renames) + Defaults(to, defaulted);
    forall i | 0 <= i < |stanzas| ensures CarriedOut(lib, stanzas[i], obj, r) {
      if i >= |renames| { assert defaulted[i - |renames|] in defaulted; }
    }
  }

  lemma RenameCarriedOut(lib: Numerics, from: Shape, to: Shape, renames: seq<Pair>, defaulted: seq<string>,
      obj: Fields, i: nat)
    requires Plan(from, to, renames, defaulted) && Decoded(Obj(obj)) && obj.Keys == from.Keys && Movable(obj, renames)
    requires i < |renames|
    ensures CarriedOut(lib, RenameStanza(renames[i].from, renames[i].to), obj,
            ReencodeFields(lib, Result(obj, to, renames, defaulted)))
  {
    ResultRenamed(from, to, renames, defaulted, obj, i);
    ReencodeIdentity(lib, obj[renames[i].from]);
  }

  lemma DefaultCarriedOut(lib: Numerics, from: Shape, to: Shape, renames: seq<Pair>, defaulted: seq<string>,
      obj: Fields, n: string)
    requires Plan(from, to, renames, defaulted) && obj.Keys == from.Keys && Movable(obj, renames) && n in defaulted
    ensures CarriedOut(lib, DefaultStanza(n, ZeroAt(to, n)), obj,
            ReencodeFields(lib, Result(obj, to, renames, defaulted)))
  {
    ResultKeys(from, to, renames, defaulted, obj, n);
  }

  lemma PlanRuns(lib: Numerics, from: Shape, to: Shape, renames: seq<Pair>, defaulted: seq<string>, obj: Fields)
    requires Plan(from, to, renames, defaulted) && obj.Keys == from.Keys && Movable(obj, renames)
    requires forall n :: n in defaulted ==> Scalar(ZeroAt(to, n))
    ensures var ops := RenameOps(renames) + DefaultOps(defaulted, to);
            && AllWellFormed(ops) && Run(lib, ops, [], obj) == Ok(Result(obj, to, renames, defaulted))
            && (ops == [] ==> Result(obj, to, renames, defaulted) == obj)
  {
    var a, b := RenameOps(renames), DefaultOps(defaulted, to);
    RenamesRun(lib, renames, obj);
    forall n | n in defaulted ensures n !in Moved(obj, renames) { MovedKeys(from, to, renames, defaulted, obj, n); }
    DefaultsRun(lib, defaulted, to, [] + FusionLaws.AllTolerated(a), Moved(obj, renames));
    FusionLaws.RunConcat(lib, a, b, [], obj);
  }

  lemma OpsLoad(t: Target, from: Shape, to: Shape, renames: seq<Pair>, defaulted: seq<string>,
      stanzas: seq<Stanza>, ops: seq<Op>)
    requires Describes(t, OwnShape(t, from, to)) && Plan(from, to, renames, defaulted)
    requires stanzas == Renames(renames) + Defaults(to, defaulted)
             && ops == RenameOps(renames) + DefaultOps(defaulted, to)
    requires forall i :: 0 <= i < |renames| ==>
             LegalName(renames[i].from) && LegalName(renames[i].to) && renames[i].from != renames[i].to
    requires forall n :: n in defaulted ==> LegalName(n) && Scalar(ZeroAt(to, n))
    ensures Loaded(t, stanzas, ops)
  {
    forall i | 0 <= i < |stanzas| ensures LoadsAs(t, stanzas[i], ops[i]) {
      if i < |renames| {
        var pair := renames[i];
        assert stanzas[i] == RenameStanza(pair.from, pair.to) && ops[i] == Rename(Plain(pair.from), Plain(pair.to));
        RenameLoads(t, from, to, pair);
      } else {
        var n := defaulted[i - |renames|];
        assert n in defaulted && n in to;
        assert stanzas[i] == DefaultStanza(n, ZeroAt(to, n)) && ops[i] == Default(Plain(n), ZeroAt(to, n));
        DefaultLoads(t, from, to, n);
      }
    }
  }

  lemma RenameLoads(t: Target, from: Shape, to: Shape, pair: Pair)
    requires Describes(t, OwnShape(t, from, to)) && pair.from in from && pair.to in to
    requires LegalName(pair.from) && LegalName(pair.to) && pair.from != pair.to
    ensures LoadsAs(t, RenameStanza(pair.from, pair.to), Rename(Plain(pair.from), Plain(pair.to)))
  {
    PlainPath(pair.from);
    PlainPath(pair.to);
    PlainIsDescribed(t, OwnShape(t, from, to), if t.side.RequestSide? then pair.from else pair.to);
    var p, q := Plain(pair.from), Plain(pair.to);
    assert p[..|p| - 1] == [] && q[..|q| - 1] == [];
  }

  lemma DefaultLoads(t: Target, from: Shape, to: Shape, name: string)
    requires Describes(t, OwnShape(t, from, to)) && name in to && LegalName(name) && Scalar(ZeroAt(to, name))
    ensures LoadsAs(t, DefaultStanza(name, ZeroAt(to, name)), Default(Plain(name), ZeroAt(to, name)))
  {
    PlainPath(name);
    if t.side.ResponseSide? { PlainIsDescribed(t, to, name); }
  }

  // The ops succeed on obj and leave it reshaped.
  ghost predicate Works(lib: Numerics, from: Shape, to: Shape, stanzas: seq<Stanza>, ops: seq<Op>, obj: Fields) {
    && AllWellFormed(ops) && Apply(lib, ops, Obj(obj)).Ok? && Apply(lib, ops, Obj(obj)).value.Obj?
    && Reshaped(lib, from, to, stanzas, obj, Apply(lib, ops, Obj(obj)).value.fields)
  }

  lemma PlanWorks(lib: Numerics, from: Shape, to: Shape, renames: seq<Pair>, defaulted: seq<string>, obj: Fields)
    requires Plan(from, to, renames, defaulted)
    requires forall n :: n in defaulted ==> Scalar(ZeroAt(to, n))
    requires Decoded(Obj(obj)) && obj.Keys == from.Keys
    ensures Works(lib, from, to, Renames(renames) + Defaults(to, defaulted),
            RenameOps(renames) + DefaultOps(defaulted, to), obj)
  {
    PlanIsMovable(from, to, renames, defaulted, obj);
    PlanRuns(lib, from, to, renames, defaulted, obj);
    ResultIsReshaped(lib, from, to, renames, defaulted, obj);
    ReencodeIdentity(lib, Obj(obj));
  }

  lemma PlanLoads(t: Target, from: Shape, to: Shape, renames: seq<Pair>, defaulted: seq<string>, stanzas: seq<Stanza>)
    requires Plan(from, to, renames, defaulted) && stanzas == Renames(renames) + Defaults(to, defaulted)
    requires Describes(t, OwnShape(t, from, to))
    requires forall n :: n in from || n in to ==> LegalName(n)
    requires forall n :: n in defaulted ==> Scalar(ZeroAt(to, n))
    ensures Loaded(t, stanzas, RenameOps(renames) + DefaultOps(defaulted, to))
  {
    OpsLoad(t, from, to, renames, defaulted, stanzas, RenameOps(renames) + DefaultOps(defaulted, to));
  }

  ghost predicate Loaded(t: Target, stanzas: seq<Stanza>, ops: seq<Op>) {
    |ops| == |stanzas| && forall i :: 0 <= i < |stanzas| ==> LoadsAs(t, stanzas[i], ops[i])
  }

  lemma CompleteIsPlan(lower: string -> string, from: Shape, to: Shape, strict: bool, d: Draft, t: Trace)
    requires DraftOf(lower, from, to, strict, d, t) && Complete(d)
    ensures Plan(from, to, t.renames, t.defaulted) && d.stanzas == Renames(t.renames) + Defaults(to, t.defaulted)
  {
    CompleteTrace(lower, from, to, strict, d, t);
    PlanFromLists(from, to, t.removed, t.added, t.renames, t.defaulted);
  }

  // No drafted default is an array or an object, which the loader refuses.
  ghost predicate ScalarDefaults(d: Draft) {
    forall i :: 0 <= i < |d.stanzas| ==> d.stanzas[i].DefaultStanza? ==> Scalar(d.stanzas[i].value)
  }

  lemma DefaultedAreScalar(to: Shape, renames: seq<Pair>, defaulted: seq<string>, d: Draft)
    requires ScalarDefaults(d) && d.stanzas == Renames(renames) + Defaults(to, defaulted)
    ensures forall n :: n in defaulted ==> Scalar(ZeroAt(to, n))
  {
    forall n | n in defaulted ensures Scalar(ZeroAt(to, n)) {
      var i :| 0 <= i < |defaulted| && defaulted[i] == n;
      assert d.stanzas[|renames| + i] == DefaultStanza(n, ZeroAt(to, n));
    }
  }

  // The message the generator builds for a schema describes that schema's properties.
  lemma BuiltDescribes(t: Target, doc: Components, sc: Schema, fields: seq<Descriptors.NumberedField>)
    requires IsMessageComponent(sc) && Descriptors.MessageBuilt(doc, sc, fields)
    requires PathCheck.Closed(t.registry) && t.message in t.registry && |t.registry[t.message].fields| == |fields|
    requires forall i :: 0 <= i < |fields| ==>
               t.registry[t.message].fields[i].name == fields[i].name
                   && t.registry[t.message].fields[i].jsonName == fields[i].jsonName
    ensures Describes(t, sc.properties.value)
  {
    var keys := Sorted(sc.properties.value.Keys);
    forall k | k in sc.properties.value ensures exists f :: f in t.registry[t.message].fields && f.jsonName == k {
      assert k in keys;
      var i :| 0 <= i < |keys| && keys[i] == k;
      assert t.registry[t.message].fields[i] in t.registry[t.message].fields;
    }
  }

  // Drafted shims work: a complete draft loads on the side it was drafted for, and applied to any body
  // with exactly the old fields it never fails and yields exactly the new ones.
  lemma DraftedShimWorks(lib: Numerics, target: Target, lower: string -> string, from: Shape, to: Shape,
      strict: bool, d: Draft, obj: Fields)
    returns (ops: seq<Op>)
    requires Drafted(lower, from, to, strict, d) && Complete(d)
    requires forall n :: n in from || n in to ==> LegalName(n)
    requires ScalarDefaults(d) && Describes(target, OwnShape(target, from, to))
    requires Decoded(Obj(obj)) && obj.Keys == from.Keys
    ensures Loaded(target, d.stanzas, ops) && Works(lib, from, to, d.stanzas, ops, obj)
  {
    var t :| DraftOf(lower, from, to, strict, d, t);
    CompleteIsPlan(lower, from, to, strict, d, t);
    DefaultedAreScalar(to, t.renames, t.defaulted, d);
    PlanLoads(target, from, to, t.renames, t.defaulted, d.stanzas);
    PlanWorks(lib, from, to, t.renames, t.defaulted, obj);
    ops := RenameOps(t.renames) + DefaultOps(t.defaulted, to);
  }
}
