/**
 Lowering of schemas to proto fields (internal/bundlegen/bundlegen.go, buildMessage, buildField and
 buildMapField): when the recursion over inlined components ends, and that every message a field
 refers to was collected and built.
 */
module Lowering {
  import opened Json
  import opened Names
  import opened Schemas

  datatype ProtoType =
    | StringType | BoolType | Int32Type | Int64Type | FloatType | DoubleType
    | StructType | ValueType              // google.protobuf.Struct and .Value
    | MessageType(component: string)      // the message built for a component
    | EntryType(value: ProtoType)         // the nested map entry of this field

  datatype Field = Field(typ: ProtoType, repeated: bool, optional: bool)

  // Diverges: the recursion in the source never returns (LoweringEndsExactly).
  datatype Lowered = Lowered(field: Field) | Unsupported | Diverges

  predicate IsOpenObject(sc: Schema) {
    sc.typ == "object" && !HasProperties(sc) && (sc.additional.Absent? || AdditionalOpen(sc.additional))
  }

  predicate IsDiscriminatedUnion(sc: Schema) {
    sc.discriminator.Discriminated? && (sc.oneOf != [] || sc.anyOf != [])
  }

  predicate IsUntaggedUnion(sc: Schema) {
    !sc.discriminator.Discriminated? && (sc.oneOf != [] || (sc.anyOf != [] && NullableAnyOf(sc).None?))
  }

  function WktOf(sc: Schema): Option<ProtoType> {
    if IsOpenObject(sc) || IsDiscriminatedUnion(sc) then Some(StructType)
    else if IsUntaggedUnion(sc) || IsEmptySchema(sc) then Some(ValueType)
    else None
  }

  // The component a $ref inlines: one that is defined and does not become a message.
  predicate Inlined(doc: Components, ref: string) {
    ref != "" && RefName(ref) in doc && !IsMessageComponent(doc[RefName(ref)])
  }

  function ScalarOf(typ: string, format: string): ProtoType
    requires ScalarType(typ)
  {
    if typ == "string" then StringType
    else if typ == "boolean" then BoolType
    else if typ == "integer" then (if format == "int64" then Int64Type else Int32Type)
    else (if format == "float" then FloatType else DoubleType)
  }

  // Items ignore the format: every integer is 64-bit, every number a double.
  function ItemScalarOf(typ: string): ProtoType
    requires ScalarType(typ)
  {
    if typ == "string" then StringType
    else if typ == "boolean" then BoolType
    else if typ == "integer" then Int64Type
    else DoubleType
  }

  function BuildArray(doc: Components, items: Schema): Lowered {
    var item := if Inlined(doc, items.ref) then doc[RefName(items.ref)] else items;
    if WktOf(item).Some? then Lowered(Field(WktOf(item).value, true, false))
    else if item.ref != "" then Lowered(Field(MessageType(RefName(item.ref)), true, false))
    else if ScalarType(item.typ) then Lowered(Field(ItemScalarOf(item.typ), true, false))
    else Unsupported
  }

  function BuildMapField(doc: Components, declared: Schema): Lowered {
    var value := if Inlined(doc, declared.ref) then doc[RefName(declared.ref)] else declared;
    if value.ref != "" then Lowered(Field(EntryType(MessageType(RefName(value.ref))), true, false))
    else if ScalarType(value.typ) then Lowered(Field(EntryType(ScalarOf(value.typ, value.format)), true, false))
    else Unsupported
  }

  // The switch on the type, for a schema that is neither a union nor a $ref.
  function BuildByType(doc: Components, sc: Schema): Lowered {
    if ScalarType(sc.typ) then Lowered(Field(ScalarOf(sc.typ, sc.format), false, sc.nullable))
    else if sc.typ == "array" && sc.items.Some? then BuildArray(doc, sc.items.value)
    else if sc.typ == "object" && MapValueSchema(sc.additional).Some? && !HasProperties(sc) then
      BuildMapField(doc, MapValueSchema(sc.additional).value)
    else Unsupported
  }

  function Optional(l: Lowered): Lowered {
    match l
    case Lowered(f) => Lowered(f.(optional := true))
    case other => other
  }

  // buildField, made total: `stack` holds the components being inlined, and meeting one of them again
  // gives Diverges. LowerWithin is the recursion as the source has it.
  function BuildField(doc: Components, sc: Schema, stack: set<string>): Lowered
    decreases doc.Keys - stack, sc
  {
    if NullableAnyOf(sc).Some? then
      Optional(BuildField(doc, NullableAnyOf(sc).value, stack))
    else if WktOf(sc).Some? then Lowered(Field(WktOf(sc).value, false, false))
    else if sc.ref != "" then
      if Inlined(doc, sc.ref) then
        var n := RefName(sc.ref);
        if n in stack then Diverges
        else
          assert n in doc.Keys - stack;
          BuildField(doc, doc[n], stack + {n})
      else Lowered(Field(MessageType(RefName(sc.ref)), false, false))
    else BuildByType(doc, sc)
  }

  // --- termination ---

  // The component whose lowering the lowering of sc is handed over to, if any.
  function Inlines(doc: Components, sc: Schema): Option<string>
    decreases sc
  {
    if NullableAnyOf(sc).Some? then Inlines(doc, NullableAnyOf(sc).value)
    else if WktOf(sc).None? && Inlined(doc, sc.ref) then Some(RefName(sc.ref))
    else None
  }

  // The components inlined one after the other, starting from sc.
  ghost predicate IsInlineChain(doc: Components, sc: Schema, w: seq<string>)
    decreases |w|
  {
    w == [] || (Inlines(doc, sc) == Some(w[0]) && w[0] in doc && IsInlineChain(doc, doc[w[0]], w[1..]))
  }

  // The chain from sc comes back to a component of `stack`, or to one of its own.
  ghost predicate Returns(doc: Components, sc: Schema, stack: set<string>, w: seq<string>) {
    && IsInlineChain(doc, sc, w) && w != []
    && (w[|w| - 1] in stack || w[|w| - 1] in w[..|w| - 1])
  }

  lemma {:induction false} DivergesReturns(doc: Components, sc: Schema, stack: set<string>) returns (w: seq<string>)
    requires BuildField(doc, sc, stack).Diverges?
    ensures Returns(doc, sc, stack, w)
    decreases doc.Keys - stack, sc
  {
    if NullableAnyOf(sc).Some? {
      w := DivergesReturns(doc, NullableAnyOf(sc).value, stack);
    } else {
      var n := RefName(sc.ref);
      if n in stack {
        w := [n];
      } else {
        assert n in doc.Keys - stack;
        var rest := DivergesReturns(doc, doc[n], stack + {n});
        w := [n] + rest;
        assert w[1..] == rest;
        var last := rest[|rest| - 1];
        assert w[..|w| - 1] == [n] + rest[..|rest| - 1];
      }
    }
  }

  lemma {:induction false} ReturnsDiverges(doc: Components, sc: Schema, stack: set<string>, w: seq<string>)
    requires Returns(doc, sc, stack, w)
    ensures BuildField(doc, sc, stack).Diverges?
    decreases |w|, sc
  {
    if NullableAnyOf(sc).Some? {
      ReturnsDiverges(doc, NullableAnyOf(sc).value, stack, w);
    } else {
      var n := w[0];
      if n !in stack {
        var rest := w[1..];
        var last := w[|w| - 1];
        if rest != [] {
          assert last == rest[|rest| - 1];
          assert w[..|w| - 1] == [n] + rest[..|rest| - 1];
          ReturnsDiverges(doc, doc[n], stack + {n}, rest);
        }
      }
    }
  }

  // The source's recursion, cut off after `steps` calls: it keeps no stack and tests for no cycle.
  function LowerWithin(doc: Components, sc: Schema, steps: nat): Option<Lowered>
    decreases steps
  {
    if steps == 0 then None
    else if NullableAnyOf(sc).Some? then
      var inner := LowerWithin(doc, NullableAnyOf(sc).value, steps - 1);
      if inner.Some? then Some(Optional(inner.value)) else None
    else if WktOf(sc).Some? then Some(Lowered(Field(WktOf(sc).value, false, false)))
    else if sc.ref != "" then
      if Inlined(doc, sc.ref) then LowerWithin(doc, doc[RefName(sc.ref)], steps - 1)
      else Some(Lowered(Field(MessageType(RefName(sc.ref)), false, false)))
    else Some(BuildByType(doc, sc))
  }

  // The recursion comes back after some number of calls.
  ghost predicate Ends(doc: Components, sc: Schema) {
    exists steps :: LowerWithin(doc, sc, steps).Some?
  }

  lemma {:induction false} MoreSteps(doc: Components, sc: Schema, steps: nat, more: nat)
    requires steps <= more && LowerWithin(doc, sc, steps).Some?
    ensures LowerWithin(doc, sc, more) == LowerWithin(doc, sc, steps)
    decreases steps
  {
    if NullableAnyOf(sc).Some? {
      MoreSteps(doc, NullableAnyOf(sc).value, steps - 1, more - 1);
    } else if WktOf(sc).None? && Inlined(doc, sc.ref) {
      MoreSteps(doc, doc[RefName(sc.ref)], steps - 1, more - 1);
    }
  }

  lemma {:induction false} EnoughSteps(doc: Components, sc: Schema, stack: set<string>) returns (steps: nat)
    requires !BuildField(doc, sc, stack).Diverges?
    ensures LowerWithin(doc, sc, steps) == Some(BuildField(doc, sc, stack))
    decreases doc.Keys - stack, sc
  {
    if NullableAnyOf(sc).Some? {
      var k := EnoughSteps(doc, NullableAnyOf(sc).value, stack);
      steps := k + 1;
    } else if WktOf(sc).None? && Inlined(doc, sc.ref) {
      var n := RefName(sc.ref);
      assert n in doc.Keys - stack;
      var k := EnoughSteps(doc, doc[n], stack + {n});
      steps := k + 1;
    } else {
      steps := 1;
    }
  }

  // Coming back means the components inlined on the way came back sooner.
  lemma {:induction false} ChainComesBack(doc: Components, sc: Schema, w: seq<string>, steps: nat) returns (fewer: nat)
    requires IsInlineChain(doc, sc, w) && w != [] && LowerWithin(doc, sc, steps).Some?
    ensures fewer < steps && w[|w| - 1] in doc && LowerWithin(doc, doc[w[|w| - 1]], fewer).Some?
    decreases steps
  {
    if NullableAnyOf(sc).Some? {
      fewer := ChainComesBack(doc, NullableAnyOf(sc).value, w, steps - 1);
    } else if |w| == 1 {
      fewer := steps - 1;
    } else {
      fewer := ChainComesBack(doc, doc[w[0]], w[1..], steps - 1);
    }
  }

  // A component that inlines itself never comes back.
  lemma {:induction false} CycleNeverComesBack(doc: Components, n: string, w: seq<string>, steps: nat)
    requires n in doc && IsInlineChain(doc, doc[n], w) && w != [] && w[|w| - 1] == n
    ensures LowerWithin(doc, doc[n], steps).None?
    decreases steps
  {
    if LowerWithin(doc, doc[n], steps).Some? {
      var fewer := ChainComesBack(doc, doc[n], w, steps);
      CycleNeverComesBack(doc, n, w, fewer);
    }
  }

  lemma {:induction false} ChainSplits(doc: Components, sc: Schema, w: seq<string>, i: nat)
    requires IsInlineChain(doc, sc, w) && i < |w|
    ensures IsInlineChain(doc, sc, w[..i + 1]) && w[i] in doc && IsInlineChain(doc, doc[w[i]], w[i + 1..])
    decreases i
  {
    if i == 0 {
      assert w[..1][1..] == [];
    } else {
      ChainSplits(doc, doc[w[0]], w[1..], i - 1);
      assert w[..i + 1][1..] == w[1..][..i] && w[1..][i..] == w[i + 1..];
    }
  }

  // A returning chain leads to a component that inlines itself.
  lemma ReturningClosesCycle(doc: Components, sc: Schema, w: seq<string>)
      returns (head: seq<string>, cycle: seq<string>)
    requires Returns(doc, sc, {}, w)
    ensures head != [] && cycle != [] && IsInlineChain(doc, sc, head)
    ensures var n := head[|head| - 1]; n in doc && cycle[|cycle| - 1] == n && IsInlineChain(doc, doc[n], cycle)
  {
    var last := |w| - 1;
    var i :| 0 <= i < last && w[i] == w[last];
    ChainSplits(doc, sc, w, i);
    head, cycle := w[..i + 1], w[i + 1..];
  }

  lemma ReturningNeverEnds(doc: Components, sc: Schema, w: seq<string>)
    requires Returns(doc, sc, {}, w)
    ensures !Ends(doc, sc)
  {
    var head, cycle := ReturningClosesCycle(doc, sc, w);
    if steps :| LowerWithin(doc, sc, steps).Some? {
      var fewer := ChainComesBack(doc, sc, head, steps);
      CycleNeverComesBack(doc, head[|head| - 1], cycle, fewer);
    }
  }

  // The recursion comes back exactly when no inline chain runs into a cycle, and then with the value
  // BuildField gives.
  lemma LoweringEndsExactly(doc: Components, sc: Schema)
    ensures Ends(doc, sc) <==> !exists w :: Returns(doc, sc, {}, w)
    ensures Ends(doc, sc) <==> !BuildField(doc, sc, {}).Diverges?
    ensures forall steps :: LowerWithin(doc, sc, steps).Some? ==>
            LowerWithin(doc, sc, steps).value == BuildField(doc, sc, {})
  {
    if w :| Returns(doc, sc, {}, w) {
      ReturnsDiverges(doc, sc, {}, w);
      ReturningNeverEnds(doc, sc, w);
    } else {
      if BuildField(doc, sc, {}).Diverges? { var w := DivergesReturns(doc, sc, {}); }
      var enough := EnoughSteps(doc, sc, {});
      forall steps | LowerWithin(doc, sc, steps).Some?
        ensures LowerWithin(doc, sc, steps).value == BuildField(doc, sc, {})
      {
        if steps <= enough { MoreSteps(doc, sc, steps, enough); } else { MoreSteps(doc, sc, enough, steps); }
      }
    }
  }

  // No component among `all` inlines itself.
  ghost predicate InlineAcyclic(doc: Components, all: set<string>) {
    forall n, w :: n in all && n in doc && w != [] && IsInlineChain(doc, doc[n], w) ==> w[|w| - 1] != n
  }

  // Every lowering in a document ends iff no component inlines itself.
  lemma DocumentEndsExactly(doc: Components)
    ensures (forall sc :: Ends(doc, sc)) <==> InlineAcyclic(doc, doc.Keys)
  {
    if InlineAcyclic(doc, doc.Keys) {
      forall sc ensures Ends(doc, sc) {
        ChainsStayInside(doc, sc);
        AcyclicEnds(doc, doc.Keys, sc);
      }
    } else {
      var n, w :| n in doc && w != [] && IsInlineChain(doc, doc[n], w) && w[|w| - 1] == n;
      CycleNeverEnds(doc, n, w);
    }
  }

  lemma ChainsStayInside(doc: Components, sc: Schema)
    ensures forall w :: IsInlineChain(doc, sc, w) && w != [] ==> w[|w| - 1] in doc.Keys
  {
    forall w | IsInlineChain(doc, sc, w) && w != [] ensures w[|w| - 1] in doc.Keys { ChainSplits(doc, sc, w, |w| - 1); }
  }

  lemma CycleNeverEnds(doc: Components, n: string, w: seq<string>)
    requires n in doc && IsInlineChain(doc, doc[n], w) && w != [] && w[|w| - 1] == n
    ensures !Ends(doc, doc[n])
  {
    forall steps ensures LowerWithin(doc, doc[n], steps).None? { CycleNeverComesBack(doc, n, w, steps); }
  }

  lemma AcyclicEnds(doc: Components, all: set<string>, sc: Schema)
    requires InlineAcyclic(doc, all)
    requires forall w :: IsInlineChain(doc, sc, w) && w != [] ==> w[|w| - 1] in all
    ensures Ends(doc, sc)
  {
    LoweringEndsExactly(doc, sc);
    if w :| Returns(doc, sc, {}, w) {
      var head, cycle := ReturningClosesCycle(doc, sc, w);
    }
  }

  // --- references ---

  function RefsOf(t: ProtoType): set<string> {
    match t
    case MessageType(n) => {n}
    case EntryType(v) => RefsOf(v)
    case _ => {}
  }

  function Emitted(l: Lowered): set<string> {
    if l.Lowered? then RefsOf(l.field.typ) else {}
  }

  ghost predicate Walked(sc: Schema, all: set<string>) {
    WalkTarget(sc).Some? ==> WalkTarget(sc).value in all
  }

  // A message is built for n: a collected object component, or a synthetic message of that name.
  ghost predicate Built(doc: Components, all: set<string>, extra: set<string>, n: string) {
    (n in all && n in doc && IsMessageComponent(doc[n])) || n in extra
  }

  ghost predicate RefsBuilt(doc: Components, all: set<string>, extra: set<string>, l: Lowered) {
    forall n :: n in Emitted(l) ==> Built(doc, all, extra, n)
  }

  lemma ComponentWalked(doc: Components, all: set<string>, n: string)
    requires ClosedGood(doc, all, all) && n in all && n in doc && !IsMessageComponent(doc[n])
    ensures Walked(doc[n], all)
  {
    if WalkTarget(doc[n]).Some? { assert RefersTo(doc, n, WalkTarget(doc[n]).value); }
  }

  // Collection follows the same reference from the nullable schema as from the member lowered for it.
  predicate FollowsMember(sc: Schema, inner: Schema) {
    WalkTarget(inner).None? || WalkTarget(sc) == WalkTarget(inner)
  }

  // What array items or a map value refer to gets built. One step of inlining is taken there, so an
  // alias must lead to a message at once; `walked` says collection followed the declared reference.
  ghost predicate ElementEndsWell(doc: Components, all: set<string>, extra: set<string>, declared: Schema,
      asItem: bool, walked: bool) {
    if Inlined(doc, declared.ref) then
      var target := doc[RefName(declared.ref)];
      || target.ref == "" || (asItem && WktOf(target).Some?)
      || (if RefName(declared.ref) in all then BecomesMessage(doc, extra, RefName(target.ref))
          else Built(doc, all, extra, RefName(target.ref)))
    else
      || declared.ref == "" || (asItem && WktOf(declared).Some?)
      || walked || Built(doc, all, extra, RefName(declared.ref))
  }

  predicate BecomesMessage(doc: Components, extra: set<string>, n: string) {
    (n in doc && IsMessageComponent(doc[n])) || n in extra
  }

  // The end of the inline chain from sc is harmless: a plain reference collection followed, an
  // element that ends well, or no reference at all. A reference reached through a nullable member
  // that collection passed by needs another reason to be built.
  ghost predicate EndsWell(doc: Components, all: set<string>, extra: set<string>, sc: Schema, walked: bool,
      stack: set<string>)
    decreases doc.Keys - stack, sc
  {
    if NullableAnyOf(sc).Some? then
      var inner := NullableAnyOf(sc).value;
      EndsWell(doc, all, extra, inner, walked && FollowsMember(sc, inner), stack)
    else if WktOf(sc).Some? then true
    else if sc.ref != "" then
      var n := RefName(sc.ref);
      if Inlined(doc, sc.ref) then
        n in stack ||
        (assert n in doc.Keys - stack;
         EndsWell(doc, all, extra, doc[n], n in all, stack + {n}))
      else walked || Built(doc, all, extra, n)
    else TypeEndsWell(doc, all, extra, sc, walked)
  }

  ghost predicate TypeEndsWell(doc: Components, all: set<string>, extra: set<string>, sc: Schema, walked: bool) {
    if sc.typ == "array" && sc.items.Some? then ElementEndsWell(doc, all, extra, sc.items.value, true, walked)
    else if sc.typ == "object" && MapValueSchema(sc.additional).Some? && !HasProperties(sc) then
      ElementEndsWell(doc, all, extra, MapValueSchema(sc.additional).value, false, walked)
    else true
  }

  lemma WalkedIsBuilt(doc: Components, all: set<string>, extra: set<string>, ref: string)
    requires ClosedGood(doc, all, all) && ref != "" && RefName(ref) in all && !Inlined(doc, ref)
    ensures Built(doc, all, extra, RefName(ref))
  {
    assert !Bad(doc, RefName(ref));
  }

  // What a collected alias leads to was collected too.
  lemma AliasExactly(doc: Components, all: set<string>, extra: set<string>, ref: string)
    requires ClosedGood(doc, all, all) && Inlined(doc, ref) && doc[RefName(ref)].ref != ""
    ensures Built(doc, all, extra, RefName(doc[RefName(ref)].ref)) <==>
              if RefName(ref) in all then BecomesMessage(doc, extra, RefName(doc[RefName(ref)].ref))
              else Built(doc, all, extra, RefName(doc[RefName(ref)].ref))
  {
    if RefName(ref) in all { ComponentWalked(doc, all, RefName(ref)); }
  }

  lemma ArrayRefsExactly(doc: Components, all: set<string>, extra: set<string>, items: Schema, walked: bool)
    requires ClosedGood(doc, all, all) && (walked && items.ref != "" ==> RefName(items.ref) in all)
    ensures RefsBuilt(doc, all, extra, BuildArray(doc, items)) <==>
            ElementEndsWell(doc, all, extra, items, true, walked)
  {
    var item := if Inlined(doc, items.ref) then doc[RefName(items.ref)] else items;
    if WktOf(item).None? && item.ref != "" {
      assert Emitted(BuildArray(doc, items)) == {RefName(item.ref)};
      if Inlined(doc, items.ref) {
        AliasExactly(doc, all, extra, items.ref);
      } else if walked {
        WalkedIsBuilt(doc, all, extra, items.ref);
      }
    }
  }

  lemma MapRefsExactly(doc: Components, all: set<string>, extra: set<string>, declared: Schema, walked: bool)
    requires ClosedGood(doc, all, all) && (walked && declared.ref != "" ==> RefName(declared.ref) in all)
    ensures RefsBuilt(doc, all, extra, BuildMapField(doc, declared)) <==>
            ElementEndsWell(doc, all, extra, declared, false, walked)
  {
    var value := if Inlined(doc, declared.ref) then doc[RefName(declared.ref)] else declared;
    if value.ref != "" {
      assert RefsOf(EntryType(MessageType(RefName(value.ref)))) == RefsOf(MessageType(RefName(value.ref)))
          == {RefName(value.ref)};
      assert Emitted(BuildMapField(doc, declared)) == {RefName(value.ref)};
      if Inlined(doc, declared.ref) {
        AliasExactly(doc, all, extra, declared.ref);
      } else if walked {
        WalkedIsBuilt(doc, all, extra, declared.ref);
      }
    }
  }

  lemma TypeRefsExactly(doc: Components, all: set<string>, extra: set<string>, sc: Schema, walked: bool)
    requires ClosedGood(doc, all, all) && (walked ==> Walked(sc, all)) && sc.ref == ""
    ensures RefsBuilt(doc, all, extra, BuildByType(doc, sc)) <==> TypeEndsWell(doc, all, extra, sc, walked)
  {
    if ScalarType(sc.typ) {
    } else if sc.typ == "array" && sc.items.Some? {
      ArrayRefsExactly(doc, all, extra, sc.items.value, walked);
    } else if sc.typ == "object" && MapValueSchema(sc.additional).Some? && !HasProperties(sc) {
      MapRefsExactly(doc, all, extra, MapValueSchema(sc.additional).value, walked);
    }
  }

  lemma PlainRefExactly(doc: Components, all: set<string>, extra: set<string>, ref: string, walked: bool)
    requires ClosedGood(doc, all, all) && ref != "" && !Inlined(doc, ref) && (walked ==> RefName(ref) in all)
    ensures RefsBuilt(doc, all, extra, Lowered(Field(MessageType(RefName(ref)), false, false)))
       <==> walked || Built(doc, all, extra, RefName(ref))
  {
    assert Emitted(Lowered(Field(MessageType(RefName(ref)), false, false))) == {RefName(ref)};
    if walked { WalkedIsBuilt(doc, all, extra, ref); }
  }

  // The references of a lowered field are built exactly when its inline chain ends well, for any
  // schema of a collected document: no discipline is assumed.
  lemma {:induction false} LoweredRefsExactly(doc: Components, all: set<string>, extra: set<string>, sc: Schema,
      walked: bool, stack: set<string>)
    requires ClosedGood(doc, all, all) && (walked ==> Walked(sc, all))
    ensures RefsBuilt(doc, all, extra, BuildField(doc, sc, stack)) <==> EndsWell(doc, all, extra, sc, walked, stack)
    decreases doc.Keys - stack, sc
  {
    if NullableAnyOf(sc).Some? {
      var inner := NullableAnyOf(sc).value;
      LoweredRefsExactly(doc, all, extra, inner, walked && FollowsMember(sc, inner), stack);
    } else if WktOf(sc).Some? {
    } else if sc.ref != "" {
      var n := RefName(sc.ref);
      if Inlined(doc, sc.ref) {
        if n !in stack {
          assert n in doc.Keys - stack;
          if n in all { ComponentWalked(doc, all, n); }
          LoweredRefsExactly(doc, all, extra, doc[n], n in all, stack + {n});
        }
      } else {
        PlainRefExactly(doc, all, extra, sc.ref, walked);
      }
    } else {
      TypeRefsExactly(doc, all, extra, sc, walked);
    }
  }

  // --- documents that need no such check ---

  // The nullable idiom stands alone: no $ref or type beside it, and no second anyOf inside it.
  predicate OneForm(sc: Schema) {
    match NullableAnyOf(sc)
    case None => true
    case Some(inner) => sc.ref == "" && sc.typ != "array" && sc.typ != "object" && NullableAnyOf(inner).None?
  }

  // A component that is only a $ref leads to a message at once.
  predicate NoAliasChain(doc: Components, n: string) {
    n in doc && !IsMessageComponent(doc[n]) && doc[n].ref != "" ==>
      RefName(doc[n].ref) in doc && IsMessageComponent(doc[RefName(doc[n].ref)])
  }

  ghost predicate Disciplined(doc: Components, all: set<string>) {
    forall n :: n in all && n in doc ==>
      && NoAliasChain(doc, n)
      && (if IsMessageComponent(doc[n]) then forall p :: p in doc[n].properties.value ==>
          OneForm(doc[n].properties.value[p])
          else OneForm(doc[n]))
  }

  lemma {:induction false} DisciplinedEndsWell(doc: Components, all: set<string>, extra: set<string>, sc: Schema,
      stack: set<string>)
    requires ClosedGood(doc, all, all) && Disciplined(doc, all) && Walked(sc, all) && OneForm(sc)
    ensures EndsWell(doc, all, extra, sc, true, stack)
    decreases doc.Keys - stack, sc
  {
    if NullableAnyOf(sc).Some? {
      DisciplinedEndsWell(doc, all, extra, NullableAnyOf(sc).value, stack);
    } else if WktOf(sc).Some? {
    } else if sc.ref != "" {
      var n := RefName(sc.ref);
      if Inlined(doc, sc.ref) && n !in stack {
        assert n in doc.Keys - stack;
        ComponentWalked(doc, all, n);
        DisciplinedEndsWell(doc, all, extra, doc[n], stack + {n});
      }
    } else {
      DisciplinedTypeEndsWell(doc, all, extra, sc);
    }
  }

  lemma DisciplinedTypeEndsWell(doc: Components, all: set<string>, extra: set<string>, sc: Schema)
    requires ClosedGood(doc, all, all) && Disciplined(doc, all) && Walked(sc, all) && sc.ref == ""
    ensures TypeEndsWell(doc, all, extra, sc, true)
  {
    if sc.typ == "array" && sc.items.Some? && Inlined(doc, sc.items.value.ref) {
      assert NoAliasChain(doc, RefName(sc.items.value.ref));
    } else if sc.typ == "object" && MapValueSchema(sc.additional).Some?
        && Inlined(doc, MapValueSchema(sc.additional).value.ref) {
      assert NoAliasChain(doc, RefName(MapValueSchema(sc.additional).value.ref));
    }
  }

  // With one form per schema and no alias chains, every message a lowered field refers to is built.
  lemma LoweredRefsCollected(doc: Components, all: set<string>, sc: Schema)
    requires ClosedGood(doc, all, all) && Disciplined(doc, all)
    requires Walked(sc, all) && OneForm(sc)
    ensures RefsBuilt(doc, all, {}, BuildField(doc, sc, {}))
  {
    DisciplinedEndsWell(doc, all, {}, sc, {});
    LoweredRefsExactly(doc, all, {}, sc, true, {});
  }

  // There the components inlined are collected ones, so lowering ends if no collected one inlines itself.
  lemma {:induction false} InlinesWalked(doc: Components, all: set<string>, sc: Schema)
    requires Walked(sc, all) && OneForm(sc) && Inlines(doc, sc).Some?
    ensures var n := Inlines(doc, sc).value; n in all && n in doc && !IsMessageComponent(doc[n])
  {
  }

  lemma {:induction false} InlinesCollected(doc: Components, all: set<string>, sc: Schema, w: seq<string>)
    requires ClosedGood(doc, all, all) && Disciplined(doc, all) && Walked(sc, all) && OneForm(sc)
    requires IsInlineChain(doc, sc, w)
    ensures forall i :: 0 <= i < |w| ==> w[i] in all
    decreases |w|
  {
    if w != [] {
      InlinesWalked(doc, all, sc);
      ComponentWalked(doc, all, w[0]);
      InlinesCollected(doc, all, doc[w[0]], w[1..]);
      forall i | 0 < i < |w| ensures w[i] in all { assert w[i] == w[1..][i - 1]; }
    }
  }

  lemma CollectedEnds(doc: Components, all: set<string>, sc: Schema)
    requires ClosedGood(doc, all, all) && Disciplined(doc, all) && InlineAcyclic(doc, all)
    requires Walked(sc, all) && OneForm(sc)
    ensures Ends(doc, sc)
  {
    forall w | IsInlineChain(doc, sc, w) && w != [] ensures w[|w| - 1] in all { InlinesCollected(doc, all, sc, w); }
    AcyclicEnds(doc, all, sc);
  }
}
