/**
 The load-time path check (internal/bundle/pathvalidate.go) against the run-time walker: which paths
 can never meet a value of the wrong shape in a body that conforms to the descriptor.
 */
module PathCheck {
  import opened Json
  import opened Transform
  import opened WalkLaws

  datatype Kind = ScalarKind | MessageKind(message: string)

  // A map field is a repeated field of a two-field entry message; `IsMap` tells it apart.
  datatype Cardinality = Singular | Repeated | MapOf

  datatype Field = Field(name: string, jsonName: string, cardinality: Cardinality, kind: Kind)

  // The JSON form of a message: an object of its fields, but for the well-known types of struct.proto.
  // A Struct is any object, a ListValue any array and a Value anything.
  datatype Form = ByFields | AnyObject | AnyArray | AnyValue

  datatype Message = Message(fields: seq<Field>, form: Form)

  type Registry = map<string, Message>

  function ByName(fields: seq<Field>, name: string): (r: Option<Field>)
    ensures r.Some? ==> r.value in fields && r.value.name == name
    ensures r.None? ==> forall f :: f in fields ==> f.name != name
  {
    if fields == [] then None
    else if fields[0].name == name then Some(fields[0])
    else ByName(fields[1..], name)
  }

  function ByJsonName(fields: seq<Field>, name: string): (r: Option<Field>)
    ensures r.Some? ==> r.value in fields && r.value.jsonName == name
    ensures r.None? ==> forall f :: f in fields ==> f.jsonName != name
  {
    if fields == [] then None
    else if fields[0].jsonName == name then Some(fields[0])
    else ByJsonName(fields[1..], name)
  }

  // The loader's lookup: proto name first, JSON name as a fallback.
  function FieldFor(fields: seq<Field>, name: string): Option<Field> {
    var byName := ByName(fields, name);
    if byName.Some? then byName else ByJsonName(fields, name)
  }

  // A map entry: a scalar key and one singular value, named alike in proto and JSON.
  predicate IsEntry(m: Message) {
    && |m.fields| == 2 && m.form.ByFields?
    && m.fields[0] == Field("key", "key", Singular, ScalarKind)
    && m.fields[1] == Field("value", "value", Singular, m.fields[1].kind)
  }

  // What building the registry guarantees: references resolve, and map fields refer to entries.
  predicate Linked(reg: Registry, f: Field) {
    && (f.kind.MessageKind? ==> f.kind.message in reg)
    && (f.cardinality.MapOf? ==> f.kind.MessageKind? && IsEntry(reg[f.kind.message]))
  }

  ghost predicate Closed(reg: Registry) {
    forall n, f :: n in reg && f in reg[n].fields ==> Linked(reg, f)
  }

  // --- the check ---

  datatype Verdict =
    | Accepted
    | NoSuchField(at: nat) | NotRepeated(at: nat) | MustIterate(at: nat) | NotAMessage(at: nat)

  function Check(reg: Registry, message: string, p: Path, i: nat): Verdict
    requires Closed(reg) && message in reg && i <= |p|
    decreases |p| - i
  {
    if i == |p| then Accepted
    else
      var found := FieldFor(reg[message].fields, p[i].name);
      if found.None? then NoSuchField(i)
      else
        var f := found.value;
        assert Linked(reg, f);
        if p[i].isArray && !f.cardinality.Repeated? then NotRepeated(i)
        else if !p[i].isArray && f.cardinality.Repeated? && i < |p| - 1 then MustIterate(i)
        else if i == |p| - 1 then Accepted
        else if !f.kind.MessageKind? then NotAMessage(i)
        else Check(reg, f.kind.message, p, i + 1)
  }

  method ValidatePathAgainstMessage(reg: Registry, message: string, p: Path) returns (v: Verdict)
    requires Closed(reg) && message in reg
    ensures v == Check(reg, message, p, 0) && Says(reg, message, p, v)
  {
    CheckSays(reg, message, p);
    var current := message;
    for i := 0 to |p|
      invariant current in reg
      invariant Check(reg, current, p, i) == Check(reg, message, p, 0)
    {
      var found := FieldFor(reg[current].fields, p[i].name);
      if found.None? {
        return NoSuchField(i);
      }
      var f := found.value;
      assert Linked(reg, f);
      if p[i].isArray && !f.cardinality.Repeated? {
        return NotRepeated(i);
      }
      if !p[i].isArray && f.cardinality.Repeated? && i < |p| - 1 {
        return MustIterate(i);
      }
      if i < |p| - 1 {
        if !f.kind.MessageKind? {
          return NotAMessage(i);
        }
        current := f.kind.message;
      }
    }
    return Accepted;
  }

  // --- what each verdict says, without the check ---

  // f is the field `name` stands for: the first with that proto name, or, when no field has it as its
  // proto name, the first with that JSON name.
  ghost predicate Named(fields: seq<Field>, name: string, f: Field) {
    if exists k :: 0 <= k < |fields| && fields[k].name == name
    then exists n :: 0 <= n < |fields| && fields[n] == f && f.name == name
                  && forall k :: 0 <= k < n ==> fields[k].name != name
    else exists n :: 0 <= n < |fields| && fields[n] == f && f.jsonName == name
                  && forall k :: 0 <= k < n ==> fields[k].jsonName != name
  }

  ghost predicate Nameless(fields: seq<Field>, name: string) {
    forall k :: 0 <= k < |fields| ==> fields[k].name != name && fields[k].jsonName != name
  }

  lemma {:induction false} ByNameFirst(fields: seq<Field>, name: string)
    ensures ByName(fields, name).Some? <==> exists k :: 0 <= k < |fields| && fields[k].name == name
    ensures ByName(fields, name).Some? ==>
              exists n :: 0 <= n < |fields| && fields[n] == ByName(fields, name).value
                       && forall k :: 0 <= k < n ==> fields[k].name != name
    decreases |fields|
  {
    if fields != [] && fields[0].name != name {
      var rest := fields[1..];
      ByNameFirst(rest, name);
      if ByName(rest, name).Some? {
        var n :| 0 <= n < |rest| && rest[n] == ByName(rest, name).value && forall k :: 0 <= k < n ==>
            rest[k].name != name;
        assert fields[n + 1] == rest[n] && forall k :: 0 < k < n + 1 ==> fields[k] == rest[k - 1];
      }
    }
  }

  lemma {:induction false} ByJsonNameFirst(fields: seq<Field>, name: string)
    ensures ByJsonName(fields, name).Some? <==> exists k :: 0 <= k < |fields| && fields[k].jsonName == name
    ensures ByJsonName(fields, name).Some? ==>
              exists n :: 0 <= n < |fields| && fields[n] == ByJsonName(fields, name).value
                       && forall k :: 0 <= k < n ==> fields[k].jsonName != name
    decreases |fields|
  {
    if fields != [] && fields[0].jsonName != name {
      var rest := fields[1..];
      ByJsonNameFirst(rest, name);
      if ByJsonName(rest, name).Some? {
        var n :| 0 <= n < |rest| && rest[n] == ByJsonName(rest, name).value
              && forall k :: 0 <= k < n ==> rest[k].jsonName != name;
        assert fields[n + 1] == rest[n] && forall k :: 0 < k < n + 1 ==> fields[k] == rest[k - 1];
      }
    }
  }

  lemma FieldForExactly(fields: seq<Field>, name: string)
    ensures FieldFor(fields, name).None? <==> Nameless(fields, name)
    ensures forall f :: FieldFor(fields, name) == Some(f) <==> Named(fields, name, f)
  {
    ByNameFirst(fields, name);
    ByJsonNameFirst(fields, name);
  }

  // The message segment i is looked up in.
  function MessageAt(message: string, fs: seq<Field>, i: nat): string
    requires i <= |fs|
  {
    if i == 0 || !fs[i - 1].kind.MessageKind? then message else fs[i - 1].kind.message
  }

  // fs[i] is what segment i names in the message of the field before it.
  ghost predicate FieldAt(reg: Registry, message: string, p: Path, fs: seq<Field>, i: nat)
    requires i < |fs| <= |p|
  {
    && (i > 0 ==> fs[i - 1].kind.MessageKind?)
    && MessageAt(message, fs, i) in reg && Named(reg[MessageAt(message, fs, i)].fields, p[i].name, fs[i])
  }

  ghost predicate FieldsAlong(reg: Registry, message: string, p: Path, fs: seq<Field>) {
    |fs| <= |p| && forall i :: 0 <= i < |fs| ==> FieldAt(reg, message, p, fs, i)
  }

  // Only a repeated field can be iterated; before the leaf a repeated field must be, and is a message.
  predicate Fits(p: Path, fs: seq<Field>, i: nat)
    requires i < |fs| <= |p|
  {
    && (p[i].isArray ==> fs[i].cardinality.Repeated?)
    && (i + 1 < |p| ==> (fs[i].cardinality.Repeated? ==> p[i].isArray) && fs[i].kind.MessageKind?)
  }

  // fs are the fields of the first i segments, and those segments fit.
  ghost predicate FitsUpTo(reg: Registry, message: string, p: Path, fs: seq<Field>, i: nat) {
    && i <= |fs| && FieldsAlong(reg, message, p, fs) && forall k :: 0 <= k < i ==> Fits(p, fs, k)
  }

  // What a verdict says: all segments fit their fields, or those before i do and segment i does not,
  // for the reason given.
  ghost predicate Says(reg: Registry, message: string, p: Path, v: Verdict) {
    exists fs :: SaysOf(reg, message, p, v, fs)
  }

  ghost predicate SaysOf(reg: Registry, message: string, p: Path, v: Verdict, fs: seq<Field>) {
    match v
    case Accepted => |fs| == |p| && FitsUpTo(reg, message, p, fs, |p|)
    case NoSuchField(i) =>
      && i < |p| && |fs| == i && FitsUpTo(reg, message, p, fs, i) && MessageAt(message, fs, i) in reg
      && Nameless(reg[MessageAt(message, fs, i)].fields, p[i].name)
    case NotRepeated(i) =>
      i < |p| && |fs| == i + 1 && FitsUpTo(reg, message, p, fs, i) && p[i].isArray && !fs[i].cardinality.Repeated?
    case MustIterate(i) =>
      && i + 1 < |p| && |fs| == i + 1 && FitsUpTo(reg, message, p, fs, i)
      && !p[i].isArray && fs[i].cardinality.Repeated?
    case NotAMessage(i) =>
      && i + 1 < |p| && |fs| == i + 1 && FitsUpTo(reg, message, p, fs, i)
      && p[i].isArray == fs[i].cardinality.Repeated? && !fs[i].kind.MessageKind?
  }

  // The fields the check has looked up before segment i.
  ghost predicate Reached(reg: Registry, message: string, p: Path, fs: seq<Field>, i: nat) {
    && |fs| == i <= |p| && FitsUpTo(reg, message, p, fs, i) && MessageAt(message, fs, i) in reg
    && (0 < i < |p| ==> fs[i - 1].kind.MessageKind?)
  }

  lemma OneFieldMore(reg: Registry, message: string, p: Path, fs: seq<Field>, i: nat, f: Field)
    requires Reached(reg, message, p, fs, i) && i < |p|
    requires FieldFor(reg[MessageAt(message, fs, i)].fields, p[i].name) == Some(f)
    ensures |fs + [f]| == i + 1 && FitsUpTo(reg, message, p, fs + [f], i)
  {
    var more := fs + [f];
    FieldForExactly(reg[MessageAt(message, fs, i)].fields, p[i].name);
    forall k | 0 <= k < |more| ensures FieldAt(reg, message, p, more, k) {
      assert MessageAt(message, more, k) == MessageAt(message, fs, k);
      if k < i { assert FieldAt(reg, message, p, fs, k); }
    }
    forall k | 0 <= k < i ensures Fits(p, more, k) { assert Fits(p, fs, k); }
  }

  // At segment i, its field looked up: the verdict is there, or the check goes on.
  lemma CheckStep(reg: Registry, message: string, p: Path, fs: seq<Field>, i: nat, f: Field)
    requires Closed(reg) && Reached(reg, message, p, fs, i) && i < |p|
    requires FieldFor(reg[MessageAt(message, fs, i)].fields, p[i].name) == Some(f)
    requires FitsUpTo(reg, message, p, fs + [f], i)
    ensures var v := Check(reg, MessageAt(message, fs, i), p, i);
            if Fits(p, fs + [f], i) && i + 1 < |p|
            then Reached(reg, message, p, fs + [f], i + 1)
                && v == Check(reg, MessageAt(message, fs + [f], i + 1), p, i + 1)
            else SaysOf(reg, message, p, v, fs + [f])
  {
    assert Linked(reg, f);
  }

  lemma {:induction false} CheckSaysFrom(reg: Registry, message: string, p: Path, fs: seq<Field>, i: nat)
    requires Closed(reg) && Reached(reg, message, p, fs, i)
    ensures Says(reg, message, p, Check(reg, MessageAt(message, fs, i), p, i))
    decreases |p| - i
  {
    if i == |p| {
      assert SaysOf(reg, message, p, Accepted, fs);
    } else {
      var fields := reg[MessageAt(message, fs, i)].fields;
      match FieldFor(fields, p[i].name)
      case None =>
        FieldForExactly(fields, p[i].name);
        assert SaysOf(reg, message, p, NoSuchField(i), fs);
      case Some(f) =>
        OneFieldMore(reg, message, p, fs, i, f);
        CheckStep(reg, message, p, fs, i, f);
        if Fits(p, fs + [f], i) && i + 1 < |p| { CheckSaysFrom(reg, message, p, fs + [f], i + 1); }
    }
  }

  lemma CheckSays(reg: Registry, message: string, p: Path)
    requires Closed(reg) && message in reg
    ensures Says(reg, message, p, Check(reg, message, p, 0))
  {
    CheckSaysFrom(reg, message, p, [], 0);
  }

  lemma LooksUp(reg: Registry, message: string, p: Path, fs: seq<Field>, i: nat)
    requires Closed(reg) && FieldsAlong(reg, message, p, fs) && i < |fs|
    ensures MessageAt(message, fs, i) in reg && Linked(reg, fs[i])
    ensures FieldFor(reg[MessageAt(message, fs, i)].fields, p[i].name) == Some(fs[i])
  {
    assert FieldAt(reg, message, p, fs, i);
    FieldForExactly(reg[MessageAt(message, fs, i)].fields, p[i].name);
  }

  lemma {:induction false} CheckFollows(reg: Registry, message: string, p: Path, fs: seq<Field>, i: nat)
    requires Closed(reg) && message in reg && FitsUpTo(reg, message, p, fs, i) && i < |p|
    ensures MessageAt(message, fs, i) in reg && (i > 0 ==> fs[i - 1].kind.MessageKind?)
    ensures Check(reg, message, p, 0) == Check(reg, MessageAt(message, fs, i), p, i)
    decreases i
  {
    if i > 0 {
      CheckFollows(reg, message, p, fs, i - 1);
      LooksUp(reg, message, p, fs, i - 1);
      assert Fits(p, fs, i - 1);
    }
  }

  // The check answers v exactly when v is true of the path.
  lemma CheckExactly(reg: Registry, message: string, p: Path, v: Verdict)
    requires Closed(reg) && message in reg
    ensures Check(reg, message, p, 0) == v <==> Says(reg, message, p, v)
  {
    CheckSays(reg, message, p);
    if Says(reg, message, p, v) {
      var fs :| SaysOf(reg, message, p, v, fs);
      if v.NoSuchField? {
        CheckFollows(reg, message, p, fs, v.at);
        FieldForExactly(reg[MessageAt(message, fs, v.at)].fields, p[v.at].name);
      } else if v.Accepted? {
        if p != [] {
          LastDecides(reg, message, p, fs, |p| - 1);
          assert Fits(p, fs, |p| - 1);
        }
      } else {
        LastDecides(reg, message, p, fs, v.at);
      }
    }
  }

  // The verdict when the fields of the first i + 1 segments are known and the first i fit.
  lemma LastDecides(reg: Registry, message: string, p: Path, fs: seq<Field>, i: nat)
    requires Closed(reg) && message in reg && |fs| == i + 1 <= |p| && FitsUpTo(reg, message, p, fs, i)
    ensures var f := fs[i];
            var v := Check(reg, message, p, 0);
            && (p[i].isArray && !f.cardinality.Repeated? ==> v == NotRepeated(i))
            && (!p[i].isArray && f.cardinality.Repeated? && i + 1 < |p| ==> v == MustIterate(i))
            && (p[i].isArray == f.cardinality.Repeated? && i + 1 < |p| && !f.kind.MessageKind? ==> v == NotAMessage(i))
            && (Fits(p, fs, i) && i + 1 == |p| ==> v == Accepted)
  {
    CheckFollows(reg, message, p, fs, i);
    LooksUp(reg, message, p, fs, i);
  }

  // Iterating a repeated message field is accepted.
  lemma IteratedFieldAccepted(reg: Registry, order: string, item: string, items: Field, sku: Field)
    requires Closed(reg) && order in reg && item in reg && reg[order].fields == [items] && reg[item].fields == [sku]
    requires items.cardinality.Repeated? && items.kind == MessageKind(item)
    ensures Check(reg, order, [Segment(items.name, true), Segment(sku.name, false)], 0) == Accepted
  {
    var p, fs := [Segment(items.name, true), Segment(sku.name, false)], [items, sku];
    assert Named([items], items.name, [items][0]) && Named([sku], sku.name, [sku][0]) by {
      assert [items][0].name == items.name && [sku][0].name == sku.name;
    }
    assert FieldAt(reg, order, p, fs, 0) && FieldAt(reg, order, p, fs, 1);
    assert SaysOf(reg, order, p, Accepted, fs);
    CheckExactly(reg, order, p, Accepted);
  }

  // --- conforming bodies ---

  // The JSON protojson can emit for a message: keys are JSON names, a null stands for absence.
  ghost predicate Conforms(reg: Registry, j: Json, message: string)
    requires Closed(reg) && message in reg
    decreases j, 0
  {
    match reg[message].form
    case ByFields =>
      j.Obj? && forall k | k in j.fields ::
        var f := ByJsonName(reg[message].fields, k);
        f.Some? && ConformsField(reg, j.fields[k], f.value)
    case AnyObject => j.Obj?
    case AnyArray => j.Arr?
    case AnyValue => true
  }

  ghost predicate ConformsField(reg: Registry, j: Json, f: Field)
    requires Closed(reg) && Linked(reg, f)
    decreases j, 2
  {
    j.Null?
    || match f.cardinality
       case Singular => ConformsValue(reg, j, f.kind)
       case Repeated => j.Arr? && forall i | 0 <= i < |j.elems| :: ConformsValue(reg, j.elems[i], f.kind)
       case MapOf => j.Obj? && forall k | k in j.fields :: ConformsValue(reg, j.fields[k], EntryValue(reg, f).kind)
  }

  function EntryValue(reg: Registry, f: Field): Field
    requires Linked(reg, f) && f.cardinality.MapOf?
  {
    reg[f.kind.message].fields[1]
  }

  ghost predicate ConformsValue(reg: Registry, j: Json, kind: Kind)
    requires Closed(reg)
    decreases j, 1
  {
    match kind
    case ScalarKind => Scalar(j) && !j.Null?
    case MessageKind(m) => m in reg && Conforms(reg, j, m)
  }

  // --- which paths are shape-safe ---

  // A message whose JSON form is an object, so that the walker can step into it.
  predicate IsObject(m: Message) {
    m.form.ByFields? || m.form.AnyObject?
  }

  predicate Steppable(reg: Registry, kind: Kind) {
    kind.MessageKind? && kind.message in reg && IsObject(reg[kind.message])
  }

  // Decided on JSON names: every intermediate segment that can be present has the shape the path
  // expects. A segment no field answers to can only be absent; below a Struct anything can be present.
  predicate ShapeSafe(reg: Registry, message: string, p: Path)
    requires message in reg
    decreases |p|
  {
    |p| <= 1 || (reg[message].form.ByFields? &&
    match ByJsonName(reg[message].fields, p[0].name)
    case None => true
    case Some(f) =>
      if f.cardinality.MapOf? then
        !p[0].isArray && (|p| == 2 ||
          (!p[1].isArray && f.kind.MessageKind? && f.kind.message in reg && IsEntry(reg[f.kind.message]) &&
            var kind := reg[f.kind.message].fields[1].kind;
            Steppable(reg, kind) && ShapeSafe(reg, kind.message, p[2..])))
      else
        p[0].isArray == f.cardinality.Repeated? && Steppable(reg, f.kind) && ShapeSafe(reg, f.kind.message, p[1..]))
  }

  // --- soundness ---

  ghost predicate OnlyAbsence(r: Result<seq<Position>>) {
    r.Fail? ==> r.reason == Absent
  }

  lemma {:induction false} ShapeSafeIsSound(reg: Registry, message: string, obj: Fields, p: Path, opts: seq<Path>)
    requires Closed(reg) && message in reg && IsObject(reg[message])
    requires ShapeSafe(reg, message, p) && Conforms(reg, Obj(obj), message) && |p| > 0
    ensures OnlyAbsence(ReadLeaves(obj, p, opts))
    decreases |p|, 0
  {
    if |p| > 1 && !Missing(obj, p[0].name) {
      var name := p[0].name;
      var field := ByJsonName(reg[message].fields, name).value;
      assert Linked(reg, field) && ConformsField(reg, obj[name], field);
      if field.cardinality.MapOf? {
        MapStepIsSound(reg, field, obj[name].fields, p[1..], opts);
      } else if p[0].isArray {
        EachIsSound(reg, field.kind.message, obj[name].elems, 0, name, p[1..], opts);
      } else {
        assert ConformsValue(reg, obj[name], field.kind) && Conforms(reg, obj[name], field.kind.message);
        ShapeSafeIsSound(reg, field.kind.message, obj[name].fields, p[1..], opts);
      }
    }
  }

  lemma {:induction false} EachIsSound(reg: Registry, message: string, elems: seq<Json>, i: nat, name: string,
      p: Path, opts: seq<Path>)
    requires Closed(reg) && message in reg && IsObject(reg[message])
    requires ShapeSafe(reg, message, p) && |p| > 0 && i <= |elems|
    requires forall k :: 0 <= k < |elems| ==> Conforms(reg, elems[k], message)
    ensures OnlyAbsence(ReadLeavesFrom(elems, i, name, p, opts))
    decreases |p|, 1 + |elems| - i
  {
    if i < |elems| {
      ShapeSafeIsSound(reg, message, elems[i].fields, p, opts);
      EachIsSound(reg, message, elems, i + 1, name, p, opts);
    }
  }

  lemma {:induction false} MapStepIsSound(reg: Registry, field: Field, entries: Fields, p: Path, opts: seq<Path>)
    requires Closed(reg) && Linked(reg, field) && field.cardinality.MapOf? && |p| > 0
    requires forall k :: k in entries ==> ConformsValue(reg, entries[k], EntryValue(reg, field).kind)
    requires |p| == 1 || (!p[0].isArray && Steppable(reg, EntryValue(reg, field).kind)
                          && ShapeSafe(reg, EntryValue(reg, field).kind.message, p[1..]))
    ensures OnlyAbsence(ReadLeaves(entries, p, opts))
    decreases |p|, 0
  {
    if |p| > 1 && !Missing(entries, p[0].name) {
      var kind := EntryValue(reg, field).kind;
      assert ConformsValue(reg, entries[p[0].name], kind) && Conforms(reg, entries[p[0].name], kind.message);
      ShapeSafeIsSound(reg, kind.message, entries[p[0].name].fields, p[1..], opts);
    }
  }

  // --- completeness: an unsafe path has a conforming body that trips it ---

  // A conforming, non-null value that is not an object.
  function NonObject(reg: Registry, kind: Kind): Json {
    if kind.MessageKind? && kind.message in reg && reg[kind.message].form.AnyArray? then Arr([]) else Str("")
  }

  // A conforming, non-null value that cannot be iterated as objects.
  function NonIterable(reg: Registry, kind: Kind): Json {
    if Steppable(reg, kind) then Obj(map[])
    else if kind.MessageKind? && kind.message in reg && reg[kind.message].form.AnyArray? then Arr([Str("")])
    else Str("")
  }

  // A conforming value of a field whose shape, or whose element's, is not what the segment expects.
  function Clashing(reg: Registry, f: Field, iterated: bool): Json {
    match f.cardinality
    case Repeated => if iterated then Arr([NonObject(reg, f.kind)]) else Arr([])
    case MapOf => Obj(map[])
    case Singular => if iterated then NonIterable(reg, f.kind) else NonObject(reg, f.kind)
  }

  function Tripping(reg: Registry, message: string, p: Path): Fields
    requires Closed(reg) && message in reg && IsObject(reg[message]) && !ShapeSafe(reg, message, p)
    decreases |p|
  {
    var name := p[0].name;
    if reg[message].form.AnyObject? then map[name := Str("")]
    else
      var f := ByJsonName(reg[message].fields, name).value;
      assert Linked(reg, f);
      if f.cardinality.MapOf? && !p[0].isArray then
        var kind := EntryValue(reg, f).kind;
        map[name := Obj(map[p[1].name :=
          if p[1].isArray then NonIterable(reg, kind)
          else if Steppable(reg, kind) then Obj(Tripping(reg, kind.message, p[2..]))
          else NonObject(reg, kind)])]
      else if f.cardinality.MapOf? || p[0].isArray != f.cardinality.Repeated? || !Steppable(reg, f.kind) then
        map[name := Clashing(reg, f, p[0].isArray)]
      else
        var inner := Obj(Tripping(reg, f.kind.message, p[1..]));
        map[name := if p[0].isArray then Arr([inner]) else inner]
  }

  lemma {:induction false} TrippingTrips(reg: Registry, message: string, p: Path, f: LeafFn)
    requires Closed(reg) && message in reg && IsObject(reg[message]) && !ShapeSafe(reg, message, p)
    ensures Conforms(reg, Obj(Tripping(reg, message, p)), message)
    ensures Walk(Tripping(reg, message, p), p, [], f) == Fail(WrongShape)
    decreases |p|
  {
    if reg[message].form.ByFields? {
      var name := p[0].name;
      var obj := Tripping(reg, message, p);
      var field := ByJsonName(reg[message].fields, name).value;
      assert Linked(reg, field);
      if field.cardinality.MapOf? && !p[0].isArray {
        MapTrips(reg, message, p, f);
      } else if field.cardinality.MapOf? || p[0].isArray != field.cardinality.Repeated? || !Steppable(reg, field.kind) {
        assert ConformsField(reg, obj[name], field);
      } else {
        TrippingTrips(reg, field.kind.message, p[1..], f);
        assert ConformsField(reg, obj[name], field);
      }
    }
  }

  lemma {:induction false} MapTrips(reg: Registry, message: string, p: Path, f: LeafFn)
    requires Closed(reg) && message in reg && reg[message].form.ByFields? && !ShapeSafe(reg, message, p)
    requires ByJsonName(reg[message].fields, p[0].name).value.cardinality.MapOf? && !p[0].isArray
    ensures Conforms(reg, Obj(Tripping(reg, message, p)), message)
    ensures Walk(Tripping(reg, message, p), p, [], f) == Fail(WrongShape)
    decreases |p|, 0
  {
    var name := p[0].name;
    var obj := Tripping(reg, message, p);
    var field := ByJsonName(reg[message].fields, name).value;
    assert Linked(reg, field);
    var kind := EntryValue(reg, field).kind;
    var entries := obj[name].fields;
    assert reg[field.kind.message].fields[1] in reg[field.kind.message].fields;
    assert Linked(reg, reg[field.kind.message].fields[1]);
    assert p[1..][1..] == p[2..];
    if Steppable(reg, kind) && !p[1].isArray {
      TrippingTrips(reg, kind.message, p[2..], f);
    }
    assert ConformsValue(reg, entries[p[1].name], kind);
    assert ConformsField(reg, obj[name], field);
    assert Walk(entries, p[1..], [], f) == Fail(WrongShape);
  }

  // Some conforming body has a value of the wrong shape on the path.
  ghost predicate CanClash(reg: Registry, message: string, p: Path)
    requires Closed(reg) && message in reg
  {
    exists obj, opts :: Conforms(reg, Obj(obj), message) && ReadLeaves(obj, p, opts) == Fail(WrongShape)
  }

  // ShapeSafe is exact: the path is safe iff no conforming body has a wrong shape on it.
  lemma ShapeSafeExactly(reg: Registry, message: string, p: Path)
    requires Closed(reg) && message in reg && IsObject(reg[message]) && |p| > 0
    ensures ShapeSafe(reg, message, p) <==> !CanClash(reg, message, p)
  {
    if ShapeSafe(reg, message, p) {
      forall obj, opts | Conforms(reg, Obj(obj), message) ensures ReadLeaves(obj, p, opts) != Fail(WrongShape) {
        ShapeSafeIsSound(reg, message, obj, p, opts);
      }
    } else {
      TrippingTrips(reg, message, p, DefaultLeaf(Null));
      WalkFailsAs(Tripping(reg, message, p), p, [], DefaultLeaf(Null));
    }
  }

  // The same for the ops whose verbs read a path, as the runtime executes them.
  lemma RenameShapeSafeExactly(lib: Numerics, reg: Registry, message: string, from: Path, to: Path)
    requires Closed(reg) && message in reg && IsObject(reg[message]) && |from| > 0 && |to| > 0
    ensures ShapeSafe(reg, message, from)
       <==> forall obj, opts :: Conforms(reg, Obj(obj), message) ==>
           Step(lib, Rename(from, to), opts, obj) != Fail(WrongShape)
  {
    if ShapeSafe(reg, message, from) {
      forall obj, opts | Conforms(reg, Obj(obj), message)
          ensures Step(lib, Rename(from, to), opts, obj) != Fail(WrongShape) {
        RenameFailsOnly(lib, reg, message, from, to, opts, obj);
      }
    } else {
      TrippingTrips(reg, message, from, RenameLeaf(to[|to| - 1].name, Covers([], from)));
      assert Step(lib, Rename(from, to), [], Tripping(reg, message, from)) == Fail(WrongShape);
    }
  }

  lemma CoerceShapeSafeExactly(lib: Numerics, reg: Registry, message: string, field: Path, target: string)
    requires Closed(reg) && message in reg && IsObject(reg[message]) && |field| > 0
    ensures ShapeSafe(reg, message, field)
       <==> forall obj, opts :: Conforms(reg, Obj(obj), message) ==>
           Step(lib, Coerce(field, target), opts, obj) != Fail(WrongShape)
  {
    if ShapeSafe(reg, message, field) {
      forall obj, opts | Conforms(reg, Obj(obj), message)
          ensures Step(lib, Coerce(field, target), opts, obj) != Fail(WrongShape) {
        CoerceFailsOnly(lib, reg, message, field, target, opts, obj);
      }
    } else {
      TrippingTrips(reg, message, field, CoerceLeaf(lib, target, Covers([], field)));
      assert Step(lib, Coerce(field, target), [], Tripping(reg, message, field)) == Fail(WrongShape);
    }
  }

  lemma RenameFailsOnly(lib: Numerics, reg: Registry, message: string, from: Path, to: Path, opts: seq<Path>,
      obj: Fields)
    requires Closed(reg) && message in reg && IsObject(reg[message]) && |from| > 0 && |to| > 0
    requires ShapeSafe(reg, message, from) && Conforms(reg, Obj(obj), message)
    ensures var r := Step(lib, Rename(from, to), opts, obj); r.Fail? ==> r.reason == Absent || r.reason == TargetPresent
  {
    ShapeSafeIsSound(reg, message, obj, from, opts);
    WalkFailsAs(obj, from, opts, RenameLeaf(to[|to| - 1].name, Covers(opts, from)));
  }

  lemma CoerceFailsOnly(lib: Numerics, reg: Registry, message: string, field: Path, target: string,
      opts: seq<Path>, obj: Fields)
    requires Closed(reg) && message in reg && IsObject(reg[message]) && |field| > 0
    requires ShapeSafe(reg, message, field) && Conforms(reg, Obj(obj), message)
    ensures var r := Step(lib, Coerce(field, target), opts, obj); r.Fail? ==>
            r.reason == Absent || r.reason == NotCoercible
  {
    var f := CoerceLeaf(lib, target, Covers(opts, field));
    var r := Walk(obj, field, opts, f);
    ShapeSafeIsSound(reg, message, obj, field, opts);
    WalkFailsAs(obj, field, opts, f);
    if r.Fail? && VerbFails(obj, field, opts, f, r.reason) {
      var pos :| Refuses(Obj(obj), pos, Leaf(field), f, r.reason);
      CoerceLeafFails(lib, target, Covers(opts, field), At(Obj(obj), pos).value.fields, Leaf(field));
    }
  }

  lemma CoerceLeafFails(lib: Numerics, target: string, covered: bool, m: Fields, leaf: string)
    ensures var r := CoerceLeaf(lib, target, covered)(m, leaf); r.Fail? ==>
            r.reason == Absent || r.reason == NotCoercible
  {
  }

  // --- the loader's check ---

  // No field's proto name is another field's JSON name.
  ghost predicate NamesAgree(reg: Registry) {
    forall n, f, g :: n in reg && f in reg[n].fields && g in reg[n].fields && f.name == g.jsonName ==> f == g
  }

  // Before the leaf, along the fields the loader resolves, only messages that are objects, and
  // below a Struct only the leaf.
  predicate ObjectsBeforeLeaf(reg: Registry, message: string, p: Path, i: nat)
    requires message in reg && i <= |p|
    decreases |p| - i
  {
    i + 1 >= |p| || (reg[message].form.ByFields? &&
    var f := FieldFor(reg[message].fields, p[i].name);
    f.Some? && f.value.kind.MessageKind? && f.value.kind.message in reg ==>
      IsObject(reg[f.value.kind.message]) && ObjectsBeforeLeaf(reg, f.value.kind.message, p, i + 1))
  }

  lemma {:induction false} AcceptedIsShapeSafe(reg: Registry, message: string, p: Path, i: nat)
    requires Closed(reg) && NamesAgree(reg) && message in reg && i <= |p|
    requires Check(reg, message, p, i).Accepted? && ObjectsBeforeLeaf(reg, message, p, i)
    ensures ShapeSafe(reg, message, p[i..])
    decreases |p| - i
  {
    if i + 1 < |p| {
      var found := FieldFor(reg[message].fields, p[i].name).value;
      var json := ByJsonName(reg[message].fields, p[i].name);
      if json.Some? {
        assert found == json.value;
        assert Linked(reg, found);
        assert p[i..][1..] == p[i + 1..];
        if found.cardinality.MapOf? {
          var entry := found.kind.message;
          assert reg[entry].fields[1] in reg[entry].fields;
          assert Linked(reg, reg[entry].fields[1]);
          if i + 2 < |p| {
            assert p[i..][2..] == p[i + 2..];
            assert FieldFor(reg[entry].fields, p[i + 1].name).value == reg[entry].fields[1];
            AcceptedIsShapeSafe(reg, reg[entry].fields[1].kind.message, p, i + 2);
          }
        } else {
          AcceptedIsShapeSafe(reg, found.kind.message, p, i + 1);
        }
      }
    }
  }

  // Path soundness: walked over a conforming body, a path the loader accepts fails only because
  // something is absent, or because the verb refuses one of the leaf parents it was handed.
  lemma {:induction false} AcceptedFailsOnlyByAbsence(reg: Registry, message: string, p: Path, obj: Fields,
      opts: seq<Path>, f: LeafFn)
    requires AcceptedOn(reg, message, p) && Conforms(reg, Obj(obj), message)
    ensures var r := Walk(obj, p, opts, f); r.Fail? ==> r.reason == Absent || VerbFails(obj, p, opts, f, r.reason)
  {
    assert p[0..] == p;
    AcceptedIsShapeSafe(reg, message, p, 0);
    ShapeSafeIsSound(reg, message, obj, p, opts);
    WalkFailsAs(obj, p, opts, f);
  }

  // The loader accepts p, on a descriptor where that means something at run time.
  ghost predicate AcceptedOn(reg: Registry, message: string, p: Path) {
    && Closed(reg) && NamesAgree(reg) && message in reg && IsObject(reg[message]) && |p| > 0
    && Check(reg, message, p, 0).Accepted? && ObjectsBeforeLeaf(reg, message, p, 0)
  }

  // For the two verbs the runtime walks with: an accepted rename fails only by absence or a present
  // target, an accepted coerce only by absence or a value it cannot convert.
  lemma {:induction false} AcceptedRename(lib: Numerics, reg: Registry, message: string, from: Path, to: Path,
      opts: seq<Path>, obj: Fields)
    requires AcceptedOn(reg, message, from) && Conforms(reg, Obj(obj), message) && |to| > 0
    ensures var r := Step(lib, Rename(from, to), opts, obj); r.Fail? ==> r.reason == Absent || r.reason == TargetPresent
  {
    assert from[0..] == from;
    AcceptedIsShapeSafe(reg, message, from, 0);
    RenameFailsOnly(lib, reg, message, from, to, opts, obj);
  }

  lemma {:induction false} AcceptedCoerce(lib: Numerics, reg: Registry, message: string, field: Path,
      target: string, opts: seq<Path>, obj: Fields)
    requires AcceptedOn(reg, message, field) && Conforms(reg, Obj(obj), message)
    ensures var r := Step(lib, Coerce(field, target), opts, obj); r.Fail? ==>
            r.reason == Absent || r.reason == NotCoercible
  {
    assert field[0..] == field;
    AcceptedIsShapeSafe(reg, message, field, 0);
    CoerceFailsOnly(lib, reg, message, field, target, opts, obj);
  }

  // Without NamesAgree it is false, on descriptors the generator itself can emit: the keys "a-b"
  // and "a_b" become the fields a_b and a_b_2, and a path through "a_b" is checked on the former
  // while the body holds the latter.
  lemma CollidingNamesBreakSoundness(f: LeafFn)
    ensures var reg := map[
              "M" := Message([Field("a_b", "a-b", Singular, MessageKind("N")),
                  Field("a_b_2", "a_b", Singular, ScalarKind)], ByFields),
              "N" := Message([Field("x", "x", Singular, ScalarKind)], ByFields)];
            var p := [Segment("a_b", false), Segment("x", false)];
            && Closed(reg) && ObjectsBeforeLeaf(reg, "M", p, 0) && Check(reg, "M", p, 0).Accepted?
            && Conforms(reg, Obj(map["a_b" := Str("v")]), "M")
            && Walk(map["a_b" := Str("v")], p, [], f) == Fail(WrongShape)
  {
    var ab, ab2 := Field("a_b", "a-b", Singular, MessageKind("N")), Field("a_b_2", "a_b", Singular, ScalarKind);
    var x := Field("x", "x", Singular, ScalarKind);
    var reg := map["M" := Message([ab, ab2], ByFields), "N" := Message([x], ByFields)];
    assert [ab, ab2][1..] == [ab2];
    assert ByJsonName([ab, ab2], "a_b") == Some(ab2);
    assert ByName([x], "x") == Some(x);
    assert Closed(reg);
    var p := [Segment("a_b", false), Segment("x", false)];
    assert Check(reg, "N", p, 1).Accepted?;
    assert ConformsField(reg, Str("v"), ab2);
  }
}
