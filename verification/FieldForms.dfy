/**
 What the built descriptors can carry (internal/bundlegen/bundlegen.go, buildField and what it calls):
 the JSON values a schema describes, keyword by keyword, against those the built messages accept, told
 by their proto types alone. Every value a schema describes is accepted, and where each schema uses
 one keyword and no union, nothing else is.
 */
module FieldForms {
  import opened Json
  import opened Order
  import opened Schemas
  import opened Lowering
  import opened Descriptors

  // --- numbers ---

  // A whole number that fits a signed integer with these bounds.
  predicate Whole(x: Float, limit: int) {
    x.Finite? && x.magnitude.Floor as real == x.magnitude &&
    -limit <= (if x.negative then -x.magnitude.Floor else x.magnitude.Floor) < limit
  }

  const INT32_LIMIT := 0x8000_0000
  const INT64_LIMIT := 0x8000_0000_0000_0000

  // From here on a number rounds to no finite float32: 2^128 - 2^103.
  const FLOAT32_LIMIT := 340282356779733661637539395458142568448.0

  predicate Single(x: Float) {
    x.Finite? && x.magnitude < FLOAT32_LIMIT
  }

  // --- what a schema describes ---

  // The type and format keywords. Under items the format is void: integers have 64 bits and numbers
  // double precision, whatever it says.
  predicate OfType(sc: Schema, j: Json, element: bool) {
    match sc.typ
    case "" => true
    case "null" => j.Null?
    case "string" => j.Str?
    case "boolean" => j.Bool?
    case "integer" => j.Number? && Whole(j.x, if element || sc.format == "int64" then INT64_LIMIT else INT32_LIMIT)
    case "number" => j.Number? && (if sc.format == "float" && !element then Single(j.x) else j.x.Finite?)
    case "array" => j.Arr?
    case "object" => j.Obj?
    case _ => false
  }

  // j satisfies every keyword of the schema. `stack` holds the components already asked about j itself:
  // one that only refers to itself describes nothing.
  ghost predicate Instance(doc: Components, sc: Schema, j: Json, element: bool, stack: set<string>)
    decreases j, 0, doc.Keys - stack, sc, 1
  {
    && OfType(sc, j, element)
    && (sc.ref != "" ==> OfComponent(doc, sc, j, element, stack))
    && (sc.typ == "array" && sc.items.Some? ==>
        forall i | 0 <= i < |j.elems| :: Instance(doc, sc.items.value, j.elems[i], true, {}))
    && (sc.typ == "object" ==> forall k | k in j.fields :: OfKey(doc, sc, k, j.fields[k]))
    && OfMembers(doc, sc, j, element, stack)
  }

  ghost predicate OfComponent(doc: Components, sc: Schema, j: Json, element: bool, stack: set<string>)
    decreases j, 0, doc.Keys - stack, sc, 0
  {
    var n := RefName(sc.ref);
    n in doc && n !in stack && (assert n in doc.Keys - stack; Instance(doc, doc[n], j, element, stack + {n}))
  }

  // An object with declared properties holds no others but those `additionalProperties` allows; a null
  // property stands for an absent one.
  ghost predicate OfKey(doc: Components, sc: Schema, k: string, v: Json)
    decreases v, 1
  {
    if sc.properties.Some? && k in sc.properties.value
    then v.Null? || Instance(doc, sc.properties.value[k], v, false, {})
    else
      match sc.additional
      case Absent => sc.properties.None?
      case True => true
      case SchemaForm(other) => Instance(doc, other, v, false, {})
      case _ => false
  }

  ghost predicate OfMembers(doc: Components, sc: Schema, j: Json, element: bool, stack: set<string>)
    decreases j, 0, doc.Keys - stack, sc, 0
  {
    && (forall i | 0 <= i < |sc.allOf| :: Instance(doc, sc.allOf[i], j, element, stack))
    && (sc.anyOf != [] ==> exists i | 0 <= i < |sc.anyOf| :: Instance(doc, sc.anyOf[i], j, element, stack))
    && (sc.oneOf != [] ==>
        exists i | 0 <= i < |sc.oneOf| :: Instance(doc, sc.oneOf[i], j, element, stack)
          && forall k | 0 <= k < |sc.oneOf| && k != i :: !Instance(doc, sc.oneOf[k], j, element, stack))
    && (sc.discriminator.Discriminated? && (sc.anyOf != [] || sc.oneOf != []) ==> j.Obj?)
  }

  // --- what the built messages accept ---

  // Field m of message i is the one message n writes under the key k.
  predicate FieldAt(msgs: seq<BuiltMessage>, n: string, k: string, i: nat, m: nat) {
    i < |msgs| && msgs[i].component == n && m < |msgs[i].fields| && msgs[i].fields[m].jsonName == k
  }

  // The JSON form of one value of a proto type. A message takes no key it has no field for, and a null
  // for any field it has.
  ghost predicate TypeAccepts(msgs: seq<BuiltMessage>, t: ProtoType, j: Json)
    decreases j, 0
  {
    match t
    case StringType => j.Str?
    case BoolType => j.Bool?
    case Int32Type => j.Number? && Whole(j.x, INT32_LIMIT)
    case Int64Type => j.Number? && Whole(j.x, INT64_LIMIT)
    case FloatType => j.Number? && Single(j.x)
    case DoubleType => j.Number? && j.x.Finite?
    case StructType => j.Obj?
    case ValueType => true
    case MessageType(n) =>
      j.Obj? && HasMessage(msgs, n) && forall k | k in j.fields ::
        exists i: nat, m: nat ::
          FieldAt(msgs, n, k, i, m) && (j.fields[k].Null? || FieldAccepts(msgs, msgs[i].fields[m].field, j.fields[k]))
    case EntryType(_) => false
  }

  // The JSON form of a field: a map is an object of its values, another repeated field an array.
  ghost predicate FieldAccepts(msgs: seq<BuiltMessage>, f: Field, j: Json)
    decreases j, 1
  {
    if f.typ.EntryType?
    then f.repeated && j.Obj? && forall k | k in j.fields :: TypeAccepts(msgs, f.typ.value, j.fields[k])
    else if f.repeated then j.Arr? && forall i | 0 <= i < |j.elems| :: TypeAccepts(msgs, f.typ, j.elems[i])
    else TypeAccepts(msgs, f.typ, j)
  }

  // --- documents and their messages ---

  // An object may hold keys beside the declared ones.
  ghost predicate TakesOtherKeys(doc: Components, sc: Schema) {
    sc.additional.True? || (sc.additional.SchemaForm? && exists v :: Instance(doc, sc.additional.schema, v, false, {}))
  }

  ghost predicate ForMessages(doc: Components, all: set<string>, t: ProtoType) {
    forall n :: n in RefsOf(t) ==> n in all && n in doc && IsMessageComponent(doc[n])
  }

  // The messages built for a document whose references all name components.
  ghost predicate Describes(doc: Components, all: set<string>, extra: set<string>, msgs: seq<BuiltMessage>) {
    && IsDescriptorSet(doc, all, extra, msgs)
    && (forall i, m :: 0 <= i < |msgs| && 0 <= m < |msgs[i].fields| ==>
        ForMessages(doc, all, msgs[i].fields[m].field.typ))
  }

  // No message component takes keys it does not declare.
  ghost predicate DeclaredKeysOnly(doc: Components, all: set<string>) {
    forall n :: n in all && n in doc && IsMessageComponent(doc[n]) ==> !TakesOtherKeys(doc, doc[n])
  }

  lemma FieldOf(doc: Components, all: set<string>, extra: set<string>, msgs: seq<BuiltMessage>, n: string, p: string)
    returns (i: nat, m: nat)
    requires Describes(doc, all, extra, msgs) && n in all && n in doc && IsMessageComponent(doc[n])
    requires p in doc[n].properties.value
    ensures FieldAt(msgs, n, p, i, m)
    ensures BuildField(doc, doc[n].properties.value[p], {}) == Lowered(msgs[i].fields[m].field)
    ensures ForMessages(doc, all, msgs[i].fields[m].field.typ)
  {
    assert Built(doc, all, extra, n);
    i :| 0 <= i < |msgs| && msgs[i].component == n;
    var keys := Sorted(doc[n].properties.value.Keys);
    assert MessageBuilt(doc, doc[n], msgs[i].fields) && p in keys;
    m :| 0 <= m < |keys| && keys[m] == p;
  }

  // --- every value a schema describes is accepted ---

  lemma WktTakes(doc: Components, msgs: seq<BuiltMessage>, sc: Schema, j: Json, element: bool, stack: set<string>)
    requires WktOf(sc).Some? && Instance(doc, sc, j, element, stack)
    ensures TypeAccepts(msgs, WktOf(sc).value, j)
  {
  }

  lemma ScalarTakes(msgs: seq<BuiltMessage>, sc: Schema, j: Json)
    requires ScalarType(sc.typ)
    ensures OfType(sc, j, false) <==> TypeAccepts(msgs, ScalarOf(sc.typ, sc.format), j)
    ensures OfType(sc, j, true) <==> TypeAccepts(msgs, ItemScalarOf(sc.typ), j)
  {
  }

  lemma OtherKeyTaken(doc: Components, sc: Schema, k: string, v: Json)
    requires OfKey(doc, sc, k, v) && sc.properties.Some? && k !in sc.properties.value
    ensures TakesOtherKeys(doc, sc)
  {
  }

  lemma MessageTakes(doc: Components, all: set<string>, extra: set<string>, msgs: seq<BuiltMessage>, n: string,
      j: Json, element: bool, stack: set<string>)
    requires Describes(doc, all, extra, msgs) && DeclaredKeysOnly(doc, all)
    requires n in all && n in doc && IsMessageComponent(doc[n]) && Instance(doc, doc[n], j, element, stack)
    ensures TypeAccepts(msgs, MessageType(n), j)
    decreases j, 0
  {
    assert Built(doc, all, extra, n);
    forall k | k in j.fields
      ensures exists i: nat, m: nat ::
        FieldAt(msgs, n, k, i, m) && (j.fields[k].Null? || FieldAccepts(msgs, msgs[i].fields[m].field, j.fields[k]))
    {
      assert OfKey(doc, doc[n], k, j.fields[k]);
      if k !in doc[n].properties.value { OtherKeyTaken(doc, doc[n], k, j.fields[k]); }
      var i, m := FieldOf(doc, all, extra, msgs, n, k);
      if !j.fields[k].Null? {
        FieldTakes(doc, all, extra, msgs, doc[n].properties.value[k], {}, msgs[i].fields[m].field, j.fields[k]);
      }
    }
  }

  lemma ElementTakes(doc: Components, all: set<string>, extra: set<string>, msgs: seq<BuiltMessage>, items: Schema,
      t: ProtoType, j: Json)
    requires Describes(doc, all, extra, msgs) && DeclaredKeysOnly(doc, all) && ForMessages(doc, all, t)
    requires BuildArray(doc, items) == Lowered(Field(t, true, false)) && Instance(doc, items, j, true, {})
    ensures TypeAccepts(msgs, t, j)
    decreases j, 1
  {
    var inlined := Inlined(doc, items.ref);
    var item := if inlined then doc[RefName(items.ref)] else items;
    var stack := if inlined then {} + {RefName(items.ref)} else {};
    assert Instance(doc, item, j, true, stack);
    if WktOf(item).Some? {
      WktTakes(doc, msgs, item, j, true, stack);
    } else if item.ref != "" {
      var n := RefName(item.ref);
      assert n in RefsOf(t);
      MessageTakes(doc, all, extra, msgs, n, j, true, stack + {n});
    } else {
      ScalarTakes(msgs, item, j);
    }
  }

  lemma MapValueTakes(doc: Components, all: set<string>, extra: set<string>, msgs: seq<BuiltMessage>, declared: Schema,
      t: ProtoType, j: Json)
    requires Describes(doc, all, extra, msgs) && DeclaredKeysOnly(doc, all) && ForMessages(doc, all, t)
    requires BuildMapField(doc, declared) == Lowered(Field(EntryType(t), true, false))
    requires Instance(doc, declared, j, false, {})
    ensures TypeAccepts(msgs, t, j)
    decreases j, 1
  {
    var inlined := Inlined(doc, declared.ref);
    var value := if inlined then doc[RefName(declared.ref)] else declared;
    var stack := if inlined then {} + {RefName(declared.ref)} else {};
    assert Instance(doc, value, j, false, stack);
    if value.ref != "" {
      var n := RefName(value.ref);
      assert n in RefsOf(t);
      MessageTakes(doc, all, extra, msgs, n, j, false, stack + {n});
    } else {
      ScalarTakes(msgs, value, j);
    }
  }

  lemma TypeTakes(doc: Components, all: set<string>, extra: set<string>, msgs: seq<BuiltMessage>, sc: Schema,
      stack: set<string>, f: Field, j: Json)
    requires Describes(doc, all, extra, msgs) && DeclaredKeysOnly(doc, all) && ForMessages(doc, all, f.typ)
    requires BuildByType(doc, sc) == Lowered(f) && Instance(doc, sc, j, false, stack)
    ensures FieldAccepts(msgs, f, j)
    decreases j, 2
  {
    if ScalarType(sc.typ) {
      ScalarTakes(msgs, sc, j);
    } else if sc.typ == "array" {
      forall i | 0 <= i < |j.elems| ensures TypeAccepts(msgs, f.typ, j.elems[i]) {
        ElementTakes(doc, all, extra, msgs, sc.items.value, f.typ, j.elems[i]);
      }
    } else {
      var v := sc.additional.schema;
      forall k | k in j.fields ensures TypeAccepts(msgs, f.typ.value, j.fields[k]) {
        MapValueTakes(doc, all, extra, msgs, v, f.typ.value, j.fields[k]);
      }
    }
  }

  lemma OfOtherMember(doc: Components, sc: Schema, j: Json, stack: set<string>)
    requires NullableAnyOf(sc).Some? && Instance(doc, sc, j, false, stack) && !j.Null?
    ensures Instance(doc, NullableAnyOf(sc).value, j, false, stack)
  {
    assert OfMembers(doc, sc, j, false, stack);
    var i :| 0 <= i < |sc.anyOf| && Instance(doc, sc.anyOf[i], j, false, stack);
  }

  // A field lowered from a schema accepts what the schema describes.
  lemma {:induction false} FieldTakes(doc: Components, all: set<string>, extra: set<string>, msgs: seq<BuiltMessage>,
      sc: Schema, stack: set<string>, f: Field, j: Json)
    requires Describes(doc, all, extra, msgs) && DeclaredKeysOnly(doc, all) && ForMessages(doc, all, f.typ)
    requires BuildField(doc, sc, stack) == Lowered(f) && Instance(doc, sc, j, false, stack) && !j.Null?
    ensures FieldAccepts(msgs, f, j)
    decreases j, 3, doc.Keys - stack, sc
  {
    if NullableAnyOf(sc).Some? {
      var inner := NullableAnyOf(sc).value;
      OfOtherMember(doc, sc, j, stack);
      FieldTakes(doc, all, extra, msgs, inner, stack, BuildField(doc, inner, stack).field, j);
    } else if WktOf(sc).Some? {
      WktTakes(doc, msgs, sc, j, false, stack);
    } else if sc.ref != "" {
      var n := RefName(sc.ref);
      assert n in doc.Keys - stack;
      if Inlined(doc, sc.ref) {
        FieldTakes(doc, all, extra, msgs, doc[n], stack + {n}, f, j);
      } else {
        assert n in RefsOf(f.typ);
        MessageTakes(doc, all, extra, msgs, n, j, false, stack + {n});
      }
    } else {
      TypeTakes(doc, all, extra, msgs, sc, stack, f, j);
    }
  }

  // --- and nothing else, where each schema uses one keyword ---

  // A reference, a type, a nullable reference or scalar, or nothing; an inline object declares no properties.
  predicate OneKeyword(sc: Schema) {
    && sc.allOf == [] && sc.oneOf == [] && !sc.discriminator.Discriminated?
    && (sc.anyOf != [] ==> NullableAnyOf(sc).Some? && sc.ref == "" && sc.typ == "")
    && (forall i | 0 <= i < |sc.anyOf| && sc.anyOf[i].typ == "null" ::
        sc.anyOf[i].allOf == [] && sc.anyOf[i].oneOf == [] && sc.anyOf[i].anyOf == [])
    && (sc.ref != "" ==> sc.typ == "")
    && (sc.typ == "object" ==> sc.properties.None?)
  }

  predicate Strict(sc: Schema)
    decreases sc
  {
    && OneKeyword(sc)
    && (sc.items.Some? ==> Strict(sc.items.value))
    && (sc.additional.SchemaForm? ==> Strict(sc.additional.schema))
    && (NullableAnyOf(sc).Some? ==> Strict(NullableAnyOf(sc).value))
  }

  // A message of strict properties and of no other keyword.
  predicate StrictMessage(sc: Schema) {
    && IsMessageComponent(sc) && sc.ref == "" && sc.allOf == [] && sc.oneOf == [] && sc.anyOf == []
    && forall p | p in sc.properties.value :: Strict(sc.properties.value[p])
  }

  predicate StrictDocument(doc: Components) {
    forall n | n in doc :: if IsMessageComponent(doc[n]) then StrictMessage(doc[n]) else Strict(doc[n])
  }

  ghost predicate NoMessages(doc: Components, stack: set<string>) {
    forall n :: n in stack ==> n in doc && !IsMessageComponent(doc[n])
  }

  lemma WktGives(doc: Components, msgs: seq<BuiltMessage>, sc: Schema, j: Json, element: bool, stack: set<string>)
    requires Strict(sc) && WktOf(sc).Some? && TypeAccepts(msgs, WktOf(sc).value, j)
    ensures Instance(doc, sc, j, element, stack)
  {
    if IsOpenObject(sc) {
      forall k | k in j.fields ensures OfKey(doc, sc, k, j.fields[k]) {}
    }
  }

  lemma ScalarGives(doc: Components, sc: Schema, j: Json, element: bool, stack: set<string>)
    requires Strict(sc) && ScalarType(sc.typ) && OfType(sc, j, element)
    ensures Instance(doc, sc, j, element, stack)
  {
  }

  lemma MessageGives(doc: Components, all: set<string>, extra: set<string>, msgs: seq<BuiltMessage>, n: string,
      j: Json, element: bool, stack: set<string>)
    requires Describes(doc, all, extra, msgs) && StrictDocument(doc)
    requires n in all && n in doc && IsMessageComponent(doc[n]) && TypeAccepts(msgs, MessageType(n), j)
    ensures Instance(doc, doc[n], j, element, stack)
    decreases j, 0, 0
  {
    var sc := doc[n];
    forall k | k in j.fields ensures OfKey(doc, sc, k, j.fields[k]) {
      var i: nat, m: nat :| FieldAt(msgs, n, k, i, m)
        && (j.fields[k].Null? || FieldAccepts(msgs, msgs[i].fields[m].field, j.fields[k]));
      FromProperty(doc, all, extra, msgs, n, k, i, m);
      if !j.fields[k].Null? {
        FieldGives(doc, all, extra, msgs, sc.properties.value[k], {}, msgs[i].fields[m].field, j.fields[k]);
      }
    }
  }

  lemma FromProperty(doc: Components, all: set<string>, extra: set<string>, msgs: seq<BuiltMessage>, n: string,
      k: string, i: nat, m: nat)
    requires Describes(doc, all, extra, msgs) && n in all && n in doc && IsMessageComponent(doc[n])
    requires FieldAt(msgs, n, k, i, m)
    ensures k in doc[n].properties.value
    ensures BuildField(doc, doc[n].properties.value[k], {}) == Lowered(msgs[i].fields[m].field)
    ensures ForMessages(doc, all, msgs[i].fields[m].field.typ)
  {
    assert MessageBuilt(doc, doc[n], msgs[i].fields);
  }

  lemma ReferenceGives(doc: Components, all: set<string>, extra: set<string>, msgs: seq<BuiltMessage>, sc: Schema,
      j: Json, element: bool, stack: set<string>)
    requires Describes(doc, all, extra, msgs) && StrictDocument(doc) && Strict(sc) && sc.ref != ""
    requires var n := RefName(sc.ref);
             n in all && n in doc && n !in stack && IsMessageComponent(doc[n]) && TypeAccepts(msgs, MessageType(n), j)
    ensures Instance(doc, sc, j, element, stack)
    decreases j, 0, 1
  {
    var n := RefName(sc.ref);
    assert n in doc.Keys - stack;
    MessageGives(doc, all, extra, msgs, n, j, element, stack + {n});
    assert OfComponent(doc, sc, j, element, stack);
  }

  lemma InlinedGives(doc: Components, sc: Schema, j: Json, element: bool, stack: set<string>)
    requires Strict(sc) && sc.ref != "" && RefName(sc.ref) in doc && RefName(sc.ref) !in stack
    requires Instance(doc, doc[RefName(sc.ref)], j, element, stack + {RefName(sc.ref)})
    ensures Instance(doc, sc, j, element, stack)
  {
    assert RefName(sc.ref) in doc.Keys - stack;
    assert OfComponent(doc, sc, j, element, stack);
  }

  lemma ElementGives(doc: Components, all: set<string>, extra: set<string>, msgs: seq<BuiltMessage>, items: Schema,
      t: ProtoType, j: Json)
    requires Describes(doc, all, extra, msgs) && StrictDocument(doc) && Strict(items) && ForMessages(doc, all, t)
    requires BuildArray(doc, items) == Lowered(Field(t, true, false)) && TypeAccepts(msgs, t, j)
    ensures Instance(doc, items, j, true, {})
    decreases j, 2
  {
    if Inlined(doc, items.ref) {
      var n := RefName(items.ref);
      EndGives(doc, all, extra, msgs, doc[n], t, j, true, {} + {n});
      InlinedGives(doc, items, j, true, {});
    } else {
      EndGives(doc, all, extra, msgs, items, t, j, true, {});
    }
  }

  // What lowers the end of an element's, or a map value's, one step of inlining.
  predicate EndType(item: Schema, element: bool, t: ProtoType) {
    if element && WktOf(item).Some? then t == WktOf(item).value
    else if item.ref != "" then t == MessageType(RefName(item.ref))
    else ScalarType(item.typ) && t == if element then ItemScalarOf(item.typ) else ScalarOf(item.typ, item.format)
  }

  lemma EndGives(doc: Components, all: set<string>, extra: set<string>, msgs: seq<BuiltMessage>, item: Schema,
      t: ProtoType, j: Json, element: bool, stack: set<string>)
    requires Describes(doc, all, extra, msgs) && StrictDocument(doc) && Strict(item) && NoMessages(doc, stack)
    requires ForMessages(doc, all, t) && TypeAccepts(msgs, t, j) && EndType(item, element, t)
    ensures Instance(doc, item, j, element, stack)
    decreases j, 1, 1
  {
    if element && WktOf(item).Some? {
      WktGives(doc, msgs, item, j, element, stack);
    } else if item.ref != "" {
      EndReferenceGives(doc, all, extra, msgs, item, j, element, stack);
    } else {
      ScalarEndGives(doc, msgs, item, j, element, stack);
    }
  }

  lemma EndReferenceGives(doc: Components, all: set<string>, extra: set<string>, msgs: seq<BuiltMessage>,
      item: Schema, j: Json, element: bool, stack: set<string>)
    requires Describes(doc, all, extra, msgs) && StrictDocument(doc) && Strict(item) && NoMessages(doc, stack)
    requires item.ref != "" && ForMessages(doc, all, MessageType(RefName(item.ref)))
    requires TypeAccepts(msgs, MessageType(RefName(item.ref)), j)
    ensures Instance(doc, item, j, element, stack)
    decreases j, 1, 0
  {
    assert RefName(item.ref) in RefsOf(MessageType(RefName(item.ref)));
    ReferenceGives(doc, all, extra, msgs, item, j, element, stack);
  }

  lemma ScalarEndGives(doc: Components, msgs: seq<BuiltMessage>, item: Schema, j: Json, element: bool,
      stack: set<string>)
    requires Strict(item) && ScalarType(item.typ)
    requires TypeAccepts(msgs, if element then ItemScalarOf(item.typ) else ScalarOf(item.typ, item.format), j)
    ensures Instance(doc, item, j, element, stack)
  {
    ScalarTakes(msgs, item, j);
    ScalarGives(doc, item, j, element, stack);
  }

  lemma MapValueGives(doc: Components, all: set<string>, extra: set<string>, msgs: seq<BuiltMessage>,
      declared: Schema, t: ProtoType, j: Json)
    requires Describes(doc, all, extra, msgs) && StrictDocument(doc) && Strict(declared) && ForMessages(doc, all, t)
    requires BuildMapField(doc, declared) == Lowered(Field(EntryType(t), true, false)) && TypeAccepts(msgs, t, j)
    ensures Instance(doc, declared, j, false, {})
    decreases j, 2
  {
    if Inlined(doc, declared.ref) {
      var n := RefName(declared.ref);
      EndGives(doc, all, extra, msgs, doc[n], t, j, false, {} + {n});
      InlinedGives(doc, declared, j, false, {});
    } else {
      EndGives(doc, all, extra, msgs, declared, t, j, false, {});
    }
  }

  lemma TypeGives(doc: Components, all: set<string>, extra: set<string>, msgs: seq<BuiltMessage>, sc: Schema,
      stack: set<string>, f: Field, j: Json)
    requires Describes(doc, all, extra, msgs) && StrictDocument(doc) && Strict(sc) && ForMessages(doc, all, f.typ)
    requires NullableAnyOf(sc).None? && sc.ref == ""
    requires BuildByType(doc, sc) == Lowered(f) && FieldAccepts(msgs, f, j)
    ensures Instance(doc, sc, j, false, stack)
    decreases j, 3
  {
    if ScalarType(sc.typ) {
      ScalarEndGives(doc, msgs, sc, j, false, stack);
    } else if sc.typ == "array" {
      ArrayGives(doc, all, extra, msgs, sc, stack, f.typ, j);
    } else {
      DictGives(doc, all, extra, msgs, sc, stack, f.typ.value, j);
    }
  }

  lemma ArrayGives(doc: Components, all: set<string>, extra: set<string>, msgs: seq<BuiltMessage>, sc: Schema,
      stack: set<string>, t: ProtoType, j: Json)
    requires Describes(doc, all, extra, msgs) && StrictDocument(doc) && Strict(sc) && ForMessages(doc, all, t)
    requires sc.ref == "" && sc.anyOf == [] && sc.typ == "array" && sc.items.Some? && !t.EntryType?
    requires BuildArray(doc, sc.items.value) == Lowered(Field(t, true, false))
    requires FieldAccepts(msgs, Field(t, true, false), j)
    ensures Instance(doc, sc, j, false, stack)
    decreases j, 2, 1
  {
    forall i | 0 <= i < |j.elems| ensures Instance(doc, sc.items.value, j.elems[i], true, {}) {
      ElementGives(doc, all, extra, msgs, sc.items.value, t, j.elems[i]);
    }
  }

  lemma DictGives(doc: Components, all: set<string>, extra: set<string>, msgs: seq<BuiltMessage>, sc: Schema,
      stack: set<string>, t: ProtoType, j: Json)
    requires Describes(doc, all, extra, msgs) && StrictDocument(doc) && Strict(sc) && ForMessages(doc, all, t)
    requires sc.ref == "" && sc.anyOf == [] && sc.typ == "object" && sc.additional.SchemaForm?
    requires BuildMapField(doc, sc.additional.schema) == Lowered(Field(EntryType(t), true, false))
    requires FieldAccepts(msgs, Field(EntryType(t), true, false), j)
    ensures Instance(doc, sc, j, false, stack)
    decreases j, 2, 1
  {
    forall k | k in j.fields ensures OfKey(doc, sc, k, j.fields[k]) {
      MapValueGives(doc, all, extra, msgs, sc.additional.schema, t, j.fields[k]);
    }
  }

  // What a field lowered from a strict schema accepts, the schema describes.
  lemma {:induction false} FieldGives(doc: Components, all: set<string>, extra: set<string>, msgs: seq<BuiltMessage>,
      sc: Schema, stack: set<string>, f: Field, j: Json)
    requires Describes(doc, all, extra, msgs) && StrictDocument(doc) && Strict(sc) && ForMessages(doc, all, f.typ)
    requires NoMessages(doc, stack) && BuildField(doc, sc, stack) == Lowered(f) && FieldAccepts(msgs, f, j)
    ensures Instance(doc, sc, j, false, stack)
    decreases j, 4, doc.Keys - stack, sc
  {
    if NullableAnyOf(sc).Some? {
      var inner := NullableAnyOf(sc).value;
      FieldGives(doc, all, extra, msgs, inner, stack, BuildField(doc, inner, stack).field, j);
      OfSomeMember(doc, sc, j, stack);
    } else if WktOf(sc).Some? {
      WktGives(doc, msgs, sc, j, false, stack);
    } else if sc.ref != "" {
      var n := RefName(sc.ref);
      if Inlined(doc, sc.ref) {
        assert n in doc.Keys - stack;
        FieldGives(doc, all, extra, msgs, doc[n], stack + {n}, f, j);
        InlinedGives(doc, sc, j, false, stack);
      } else {
        assert n in RefsOf(f.typ);
        ReferenceGives(doc, all, extra, msgs, sc, j, false, stack);
      }
    } else {
      TypeGives(doc, all, extra, msgs, sc, stack, f, j);
    }
  }

  lemma OfSomeMember(doc: Components, sc: Schema, j: Json, stack: set<string>)
    requires Strict(sc) && NullableAnyOf(sc).Some? && Instance(doc, NullableAnyOf(sc).value, j, false, stack)
    ensures Instance(doc, sc, j, false, stack)
  {
    var i :| 0 <= i < |sc.anyOf| && sc.anyOf[i] == NullableAnyOf(sc).value;
    assert OfMembers(doc, sc, j, false, stack);
  }

  // --- the document as a whole ---

  // Everything a component describes is accepted by the message built for it.
  ghost predicate Carries(doc: Components, all: set<string>, msgs: seq<BuiltMessage>) {
    forall n, j :: n in all && n in doc && IsMessageComponent(doc[n]) && Instance(doc, doc[n], j, false, {}) ==>
      TypeAccepts(msgs, MessageType(n), j)
  }

  // Over a collected document of plain messages, the built descriptors carry everything their
  // components describe exactly when no message component takes keys it does not declare: an explicit
  // `properties: {}` beside `additionalProperties` becomes a message without fields.
  lemma CarriesExactly(doc: Components, all: set<string>, extra: set<string>, msgs: seq<BuiltMessage>)
    requires Describes(doc, all, extra, msgs) && ClosedGood(doc, all, all)
    requires forall n :: n in all && n in doc && IsMessageComponent(doc[n]) ==>
               doc[n].ref == "" && doc[n].allOf == [] && doc[n].oneOf == [] && doc[n].anyOf == []
    ensures Carries(doc, all, msgs) <==> DeclaredKeysOnly(doc, all)
  {
    if DeclaredKeysOnly(doc, all) {
      forall n, j | n in all && n in doc && IsMessageComponent(doc[n]) && Instance(doc, doc[n], j, false, {})
        ensures TypeAccepts(msgs, MessageType(n), j)
      {
        MessageTakes(doc, all, extra, msgs, n, j, false, {});
      }
    } else {
      var n :| n in all && n in doc && IsMessageComponent(doc[n]) && TakesOtherKeys(doc, doc[n]);
      assert !Bad(doc, n);
      var j := OtherKeyShutOut(doc, all, extra, msgs, n);
    }
  }

  lemma OtherKeyShutOut(doc: Components, all: set<string>, extra: set<string>, msgs: seq<BuiltMessage>, n: string)
    returns (j: Json)
    requires Describes(doc, all, extra, msgs) && n in all && n in doc && IsMessageComponent(doc[n])
    requires doc[n].ref == "" && doc[n].allOf == [] && doc[n].oneOf == [] && doc[n].anyOf == []
    requires !RejectUnsupported(doc[n]) && TakesOtherKeys(doc, doc[n])
    ensures Instance(doc, doc[n], j, false, {}) && !TypeAccepts(msgs, MessageType(n), j)
  {
    var sc := doc[n];
    assert sc.properties.value == map[];
    var v := Null;
    if sc.additional.SchemaForm? { v :| Instance(doc, sc.additional.schema, v, false, {}); }
    j := Obj(map["a" := v]);
    assert j.fields["a"] == v && OfKey(doc, sc, "a", v);
    assert Instance(doc, sc, j, false, {});
    if TypeAccepts(msgs, MessageType(n), j) { AcceptedKeys(doc, all, extra, msgs, n, j); }
  }

  lemma AcceptedKeys(doc: Components, all: set<string>, extra: set<string>, msgs: seq<BuiltMessage>, n: string, j: Json)
    requires Describes(doc, all, extra, msgs) && n in all && n in doc && IsMessageComponent(doc[n])
    requires TypeAccepts(msgs, MessageType(n), j)
    ensures forall k :: k in j.fields ==> k in doc[n].properties.value
  {
    forall k | k in j.fields ensures k in doc[n].properties.value {
      var i: nat, m: nat :| FieldAt(msgs, n, k, i, m);
      FromProperty(doc, all, extra, msgs, n, k, i, m);
    }
  }

  // In a strict document the message built for a component accepts exactly what the component describes.
  lemma MessageExactly(doc: Components, all: set<string>, extra: set<string>, msgs: seq<BuiltMessage>, n: string,
      j: Json)
    requires Describes(doc, all, extra, msgs) && StrictDocument(doc) && DeclaredKeysOnly(doc, all)
    requires n in all && n in doc && IsMessageComponent(doc[n])
    ensures TypeAccepts(msgs, MessageType(n), j) <==> Instance(doc, doc[n], j, false, {})
  {
    if TypeAccepts(msgs, MessageType(n), j) { MessageGives(doc, all, extra, msgs, n, j, false, {}); }
    if Instance(doc, doc[n], j, false, {}) { MessageTakes(doc, all, extra, msgs, n, j, false, {}); }
  }

  // The references of a built document name components, unless one names the synthetic empty message.
  lemma BuiltDescribes(doc: Components, roots: seq<string>, msgs: seq<BuiltMessage>)
    requires IsDescriptorSet(doc, ReachableSet(doc, Kept(roots)), Synthetic(roots), msgs)
    requires forall i, m :: 0 <= i < |msgs| && 0 <= m < |msgs[i].fields| ==>
               EMPTY !in RefsOf(msgs[i].fields[m].field.typ)
    ensures Describes(doc, ReachableSet(doc, Kept(roots)), Synthetic(roots), msgs)
  {
    var all := ReachableSet(doc, Kept(roots));
    forall i, m | 0 <= i < |msgs| && 0 <= m < |msgs[i].fields|
      ensures ForMessages(doc, all, msgs[i].fields[m].field.typ)
    {
      forall n | n in RefsOf(msgs[i].fields[m].field.typ) ensures Built(doc, all, {}, n) {
        assert HasMessage(msgs, n) && Built(doc, all, Synthetic(roots), n);
      }
    }
  }

  // --- presence ---

  // null satisfies every keyword of the schema, `nullable` taken into account.
  ghost predicate AdmitsNull(doc: Components, sc: Schema, stack: set<string>)
    decreases doc.Keys - stack, sc
  {
    && (sc.nullable || sc.typ == "" || sc.typ == "null")
    && (sc.ref != "" ==>
        var n := RefName(sc.ref);
        n in doc && n !in stack && (assert n in doc.Keys - stack; AdmitsNull(doc, doc[n], stack + {n})))
    && (sc.anyOf != [] ==> exists i | 0 <= i < |sc.anyOf| :: AdmitsNull(doc, sc.anyOf[i], stack))
    && (sc.oneOf != [] ==> exists i | 0 <= i < |sc.oneOf| :: AdmitsNull(doc, sc.oneOf[i], stack))
    && (forall i | 0 <= i < |sc.allOf| :: AdmitsNull(doc, sc.allOf[i], stack))
  }

  predicate IsScalar(t: ProtoType) {
    !t.StructType? && !t.ValueType? && !t.MessageType? && !t.EntryType?
  }

  // A scalar field keeps track of its presence exactly when its schema admits null.
  lemma {:induction false} OptionalExactly(doc: Components, sc: Schema, stack: set<string>)
    requires (forall n :: n in doc && !IsMessageComponent(doc[n]) ==> Strict(doc[n])) && Strict(sc)
    requires BuildField(doc, sc, stack).Lowered?
    requires var f := BuildField(doc, sc, stack).field; IsScalar(f.typ) && !f.repeated
    ensures BuildField(doc, sc, stack).field.optional <==> AdmitsNull(doc, sc, stack)
    decreases doc.Keys - stack, sc
  {
    if NullableAnyOf(sc).Some? {
      var i :| 0 <= i < 2 && IsNullType(sc.anyOf[i]);
      assert AdmitsNull(doc, sc.anyOf[i], stack);
    } else if WktOf(sc).None? && sc.ref != "" {
      var n := RefName(sc.ref);
      assert n in doc.Keys - stack;
      OptionalExactly(doc, doc[n], stack + {n});
    }
  }

  // --- the forms one by one ---

  function ArrayOf(items: Schema): Schema {
    PLAIN.(typ := "array", items := Some(items))
  }

  function DictOf(value: Schema): Schema {
    PLAIN.(typ := "object", additional := SchemaForm(value))
  }

  // The proto type of a scalar schema on its own or as a map value, and under items.
  ghost predicate LowersAs(doc: Components, sc: Schema, own: ProtoType, item: ProtoType) {
    && BuildField(doc, sc, {}) == Lowered(Field(own, false, sc.nullable))
    && BuildField(doc, DictOf(sc), {}) == Lowered(Field(EntryType(own), true, false))
    && BuildField(doc, ArrayOf(sc), {}) == Lowered(Field(item, true, false))
  }

  lemma ScalarForms(doc: Components, format: string, nullable: bool)
    ensures var sc := PLAIN.(format := format, nullable := nullable);
            && LowersAs(doc, sc.(typ := "string"), StringType, StringType)
            && LowersAs(doc, sc.(typ := "boolean"), BoolType, BoolType)
            && LowersAs(doc, sc.(typ := "integer"), if format == "int64" then Int64Type else Int32Type, Int64Type)
            && LowersAs(doc, sc.(typ := "number"), if format == "float" then FloatType else DoubleType, DoubleType)
  {
    var sc := PLAIN.(format := format, nullable := nullable);
    ScalarForm(doc, sc.(typ := "string"));
    ScalarForm(doc, sc.(typ := "boolean"));
    ScalarForm(doc, sc.(typ := "integer"));
    ScalarForm(doc, sc.(typ := "number"));
  }

  lemma ScalarForm(doc: Components, sc: Schema)
    requires ScalarType(sc.typ) && sc == PLAIN.(typ := sc.typ, format := sc.format, nullable := sc.nullable)
    ensures LowersAs(doc, sc, ScalarOf(sc.typ, sc.format), ItemScalarOf(sc.typ))
  {
    assert NullableAnyOf(sc).None? && WktOf(sc).None? && !Inlined(doc, sc.ref);
    assert NullableAnyOf(ArrayOf(sc)).None? && WktOf(ArrayOf(sc)).None?;
    assert NullableAnyOf(DictOf(sc)).None? && WktOf(DictOf(sc)).None?;
  }

  // A reference to a message: on its own, nullable, as a map value and under items.
  lemma ReferenceForms(doc: Components, name: string)
    requires '/' !in name && name in doc && IsMessageComponent(doc[name])
    ensures var sc := RefTo("#/components/schemas" + "/" + name);
            && BuildField(doc, sc, {}) == Lowered(Field(MessageType(name), false, false))
            && BuildField(doc, PLAIN.(anyOf := [sc, PLAIN.(typ := "null")]), {})
               == Lowered(Field(MessageType(name), false, true))
            && BuildField(doc, DictOf(sc), {}) == Lowered(Field(EntryType(MessageType(name)), true, false))
            && BuildField(doc, ArrayOf(sc), {}) == Lowered(Field(MessageType(name), true, false))
  {
    RefNameOfPath("#/components/schemas", name);
    ReferenceForm(doc, RefTo("#/components/schemas" + "/" + name));
    ReferenceElements(doc, RefTo("#/components/schemas" + "/" + name));
  }

  lemma ReferenceForm(doc: Components, sc: Schema)
    requires sc == RefTo(sc.ref) && sc.ref != "" && !Inlined(doc, sc.ref)
    ensures BuildField(doc, sc, {}) == Lowered(Field(MessageType(RefName(sc.ref)), false, false))
    ensures BuildField(doc, PLAIN.(anyOf := [sc, PLAIN.(typ := "null")]), {})
         == Lowered(Field(MessageType(RefName(sc.ref)), false, true))
  {
    assert NullableAnyOf(sc).None? && WktOf(sc).None?;
    assert NullableAnyOf(PLAIN.(anyOf := [sc, PLAIN.(typ := "null")])) == Some(sc);
  }

  lemma ReferenceElements(doc: Components, sc: Schema)
    requires sc == RefTo(sc.ref) && sc.ref != "" && !Inlined(doc, sc.ref)
    ensures BuildField(doc, DictOf(sc), {}) == Lowered(Field(EntryType(MessageType(RefName(sc.ref))), true, false))
    ensures BuildField(doc, ArrayOf(sc), {}) == Lowered(Field(MessageType(RefName(sc.ref)), true, false))
  {
    assert WktOf(sc).None?;
    assert NullableAnyOf(ArrayOf(sc)).None? && WktOf(ArrayOf(sc)).None?;
    assert NullableAnyOf(DictOf(sc)).None? && WktOf(DictOf(sc)).None?;
  }

  // An object without declared properties, and a tagged union, is a Struct; an untagged union, and the
  // schema without keywords, a Value.
  lemma OpenForms(doc: Components, a: Schema, b: Schema)
    ensures var open := PLAIN.(typ := "object");
            var either := PLAIN.(oneOf := [a, b]);
            && TakesForm(doc, open, StructType) && TakesForm(doc, open.(additional := True), StructType)
            && TakesForm(doc, open.(additional := SchemaForm(PLAIN)), StructType)
            && TakesForm(doc, either.(discriminator := Discriminated), StructType)
            && TakesForm(doc, either, ValueType) && TakesForm(doc, PLAIN, ValueType)
  {
    OpenForm(doc, PLAIN.(typ := "object"));
    OpenForm(doc, PLAIN.(typ := "object", additional := True));
    OpenForm(doc, PLAIN.(typ := "object", additional := SchemaForm(PLAIN)));
    OpenForm(doc, PLAIN.(oneOf := [a, b], discriminator := Discriminated));
    OpenForm(doc, PLAIN.(oneOf := [a, b]));
    OpenForm(doc, PLAIN);
  }

  // A union by anyOf, but for the nullable idiom, has the forms of one by oneOf.
  lemma AnyOfForms(doc: Components, a: Schema, b: Schema)
    requires NullableAnyOf(PLAIN.(anyOf := [a, b])).None?
    ensures BuildField(doc, PLAIN.(anyOf := [a, b]), {}) == Lowered(Field(ValueType, false, false))
    ensures BuildField(doc, PLAIN.(anyOf := [a, b], discriminator := Discriminated), {})
         == Lowered(Field(StructType, false, false))
  {
    assert NullableAnyOf(PLAIN.(anyOf := [a, b], discriminator := Discriminated)).None?;
  }

  // The schema without keywords is the plain one, or the plain one with an empty set of properties.
  lemma EmptyExactly(sc: Schema)
    ensures IsEmptySchema(sc) <==> sc == PLAIN || sc == PLAIN.(properties := Some(map[]))
  {
  }

  ghost predicate TakesForm(doc: Components, sc: Schema, t: ProtoType) {
    && BuildField(doc, sc, {}) == Lowered(Field(t, false, false))
    && BuildField(doc, ArrayOf(sc), {}) == Lowered(Field(t, true, false))
  }

  lemma OpenForm(doc: Components, sc: Schema)
    requires sc.ref == "" && sc.anyOf == [] && WktOf(sc).Some?
    ensures TakesForm(doc, sc, WktOf(sc).value)
  {
    assert NullableAnyOf(sc).None? && NullableAnyOf(ArrayOf(sc)).None? && WktOf(ArrayOf(sc)).None?;
  }

  // No field has the form of an array of arrays, of an array of nothing said, of a map of arrays or of
  // an object with properties of its own.
  lemma RefusedForms(doc: Components, sc: Schema)
    ensures BuildField(doc, PLAIN.(typ := "array"), {}) == Unsupported
    ensures BuildField(doc, ArrayOf(ArrayOf(sc)), {}) == Unsupported
    ensures BuildField(doc, DictOf(ArrayOf(sc)), {}) == Unsupported
    ensures BuildField(doc, Object(map["p" := sc]), {}) == Unsupported
  {
    var refused := [PLAIN.(typ := "array"), ArrayOf(ArrayOf(sc)), DictOf(ArrayOf(sc)), Object(map["p" := sc])];
    assert "p" in Object(map["p" := sc]).properties.value;
    forall i | 0 <= i < 4 ensures NullableAnyOf(refused[i]).None? && WktOf(refused[i]).None? {}
    assert WktOf(ArrayOf(sc)).None? && !Inlined(doc, ArrayOf(sc).ref);
  }
}
