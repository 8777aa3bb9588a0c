/**
 Descriptors for a document (internal/bundlegen/bundlegen.go, buildDescriptors and buildMessage):
 collect the schemas, name the messages, build them, and let descriptor validation resolve every
 reference. When that succeeds, and what it yields.
 */
module Descriptors {
  import opened Json
  import opened Order
  import opened Names
  import opened Schemas
  import opened Lowering
  import opened Collections

  datatype NumberedField = NumberedField(name: string, number: int, jsonName: string, field: Field)

  // The message built for a component, or a synthetic one without fields.
  datatype BuiltMessage = BuiltMessage(component: string, name: string, fields: seq<NumberedField>)

  // --- one message ---

  // Fields in key order, numbered from 1, each lowered from its own property, under distinct legal names.
  ghost predicate BuiltFields(doc: Components, properties: map<string, Schema>, keys: seq<string>,
      fields: seq<NumberedField>) {
    && StrictlySorted(keys) && |fields| == |keys|
    && (forall i :: 0 <= i < |fields| ==>
        fields[i].number == i + 1 && fields[i].jsonName == keys[i] && Legal(fields[i].name))
    && (forall i, j :: 0 <= i < j < |fields| ==> fields[i].name != fields[j].name)
    && (forall i :: 0 <= i < |fields| ==>
        keys[i] in properties && BuildField(doc, properties[keys[i]], {}) == Lowered(fields[i].field))
  }

  // When every key is legal, a field's name is its key.
  ghost predicate NamedByKey(keys: seq<string>, upTo: nat, fields: seq<NumberedField>) {
    (forall k :: 0 <= k < |keys| ==> Legal(keys[k])) ==>
      forall i :: 0 <= i < |fields| && i < |keys| && i < upTo ==> fields[i].name == keys[i]
  }

  lemma BuiltExtends(doc: Components, properties: map<string, Schema>, keys: seq<string>, i: nat,
      out: seq<NumberedField>, next: NumberedField)
    requires i < |keys| && StrictlySorted(keys) && keys[i] in properties
    requires BuiltFields(doc, properties, keys[..i], out)
    requires next.number == i + 1 && next.jsonName == keys[i] && Legal(next.name)
    requires forall k :: 0 <= k < i ==> out[k].name != next.name
    requires BuildField(doc, properties[keys[i]], {}) == Lowered(next.field)
    ensures BuiltFields(doc, properties, keys[..i + 1], out + [next])
  {
    assert keys[..i + 1] == keys[..i] + [keys[i]];
  }

  ghost predicate MessageBuilt(doc: Components, sc: Schema, fields: seq<NumberedField>)
    requires IsMessageComponent(sc)
  {
    var keys := Sorted(sc.properties.value.Keys);
    BuiltFields(doc, sc.properties.value, keys, fields) && NamedByKey(keys, |keys|, fields)
  }

  // The loop over the properties after i of them.
  ghost predicate FieldsSoFar(doc: Components, properties: map<string, Schema>, keys: seq<string>, i: nat,
      out: seq<NumberedField>, used: set<string>)
  {
    && i <= |keys| && BuiltFields(doc, properties, keys[..i], out) && NamedByKey(keys, i, out)
    && (forall name :: name in used <==> exists k :: 0 <= k < |out| && out[k].name == name)
  }

  lemma FieldAdded(doc: Components, properties: map<string, Schema>, keys: seq<string>, i: nat,
      out: seq<NumberedField>, used: set<string>, name: string, field: Field)
    requires FieldsSoFar(doc, properties, keys, i, out, used) && i < |keys| && StrictlySorted(keys)
             && keys[i] in properties
    requires Legal(name) && name !in used && (Legal(keys[i]) && keys[i] !in used ==> name == keys[i])
    requires BuildField(doc, properties[keys[i]], {}) == Lowered(field)
    ensures FieldsSoFar(doc, properties, keys, i + 1, out + [NumberedField(name, i + 1, keys[i], field)], used + {name})
  {
    var next := NumberedField(name, i + 1, keys[i], field);
    var longer := out + [next];
    BuiltExtends(doc, properties, keys, i, out, next);
    SortedDistinct(keys);
    assert longer[i] == next && forall k :: 0 <= k < i ==> longer[k] == out[k];
    NamesUsed(out, used, next);
    NextNamed(keys, i, out, used, next);
  }

  lemma NamesUsed(out: seq<NumberedField>, used: set<string>, next: NumberedField)
    requires forall name :: name in used <==> exists k :: 0 <= k < |out| && out[k].name == name
    ensures forall name :: name in used + {next.name} <==>
            exists k :: 0 <= k < |out + [next]| && (out + [next])[k].name == name
  {
    var longer := out + [next];
    forall name ensures name in used + {next.name} <==> exists k :: 0 <= k < |longer| && longer[k].name == name {
      if name in used {
        var k :| 0 <= k < |out| && out[k].name == name;
        assert longer[k].name == name;
      } else if name == next.name {
        assert longer[|out|].name == name;
      }
    }
  }

  lemma NextNamed(keys: seq<string>, i: nat, out: seq<NumberedField>, used: set<string>, next: NumberedField)
    requires i < |keys| && |out| == i && NamedByKey(keys, i, out)
    requires forall k, l :: 0 <= k < l < |keys| ==> keys[k] != keys[l]
    requires forall name :: name in used <==> exists k :: 0 <= k < |out| && out[k].name == name
    requires Legal(keys[i]) && keys[i] !in used ==> next.name == keys[i]
    ensures NamedByKey(keys, i + 1, out + [next])
  {
  }

  ghost predicate PropertiesLower(doc: Components, sc: Schema)
    requires IsMessageComponent(sc)
  {
    forall p :: p in sc.properties.value ==> BuildField(doc, sc.properties.value[p], {}).Lowered?
  }

  lemma BuiltLowers(doc: Components, properties: map<string, Schema>, keys: seq<string>, fields: seq<NumberedField>)
    requires BuiltFields(doc, properties, keys, fields) && forall p :: p in keys <==> p in properties
    ensures forall p :: p in properties ==> BuildField(doc, properties[p], {}).Lowered?
  {
    forall p | p in properties ensures BuildField(doc, properties[p], {}).Lowered? {
      assert p in keys;
      var i :| 0 <= i < |keys| && keys[i] == p;
      assert BuildField(doc, properties[keys[i]], {}) == Lowered(fields[i].field);
    }
  }

  method BuildMessage(doc: Components, sc: Schema) returns (fields: Option<seq<NumberedField>>)
    requires IsMessageComponent(sc)
    ensures fields.Some? <==> PropertiesLower(doc, sc)
    ensures fields.Some? ==> MessageBuilt(doc, sc, fields.value)
  {
    var properties := sc.properties.value;
    var props := SortedKeys(properties.Keys);
    SortedUnique(props, Sorted(properties.Keys));
    fields := BuildFields(doc, properties, props);
    if fields.Some? { BuiltLowers(doc, properties, props, fields.value); }
  }

  method BuildFields(doc: Components, properties: map<string, Schema>, props: seq<string>)
      returns (fields: Option<seq<NumberedField>>)
    requires StrictlySorted(props) && forall p :: p in props <==> p in properties
    ensures fields.Some? ==>
            BuiltFields(doc, properties, props, fields.value) && NamedByKey(props, |props|, fields.value)
    ensures fields.None? ==> exists p :: p in properties && !BuildField(doc, properties[p], {}).Lowered?
  {
    var scope := new Scope();
    var out: seq<NumberedField> := [];
    var num := 1;
    for i := 0 to |props|
      invariant fresh(scope) && num == i + 1 && FieldsSoFar(doc, properties, props, i, out, scope.used)
    {
      assert props[i] in props;
      ghost var used := scope.used;
      var name := scope.UniqueIdent(props[i]);
      var lowered := BuildField(doc, properties[props[i]], {});
      if !lowered.Lowered? {
        return None;
      }
      FieldAdded(doc, properties, props, i, out, used, name, lowered.field);
      out := out + [NumberedField(name, num, props[i], lowered.field)];
      num := num + 1;
    }
    assert props[..|props|] == props;
    return Some(out);
  }

  // --- the whole document ---

  const EMPTY := "Empty"

  predicate NotEmpty(root: string) {
    root != EMPTY
  }

  // The roots that are components; the synthetic empty message is none.
  function Kept(roots: seq<string>): seq<string> {
    Filter(NotEmpty, roots)
  }

  function Synthetic(roots: seq<string>): set<string> {
    if EMPTY in roots then {EMPTY} else {}
  }

  // The synthetic message is the one named "Empty".
  lemma KeptExactly(roots: seq<string>)
    ensures forall r :: r in Kept(roots) <==> r in roots && r != "Empty"
    ensures forall r :: r in Synthetic(roots) <==> r in roots && r == "Empty"
  {
    FilterMembers(NotEmpty, roots);
  }

  method PartitionEmpty(roots: seq<string>) returns (kept: seq<string>, needEmpty: bool)
    ensures kept == Kept(roots) && (needEmpty <==> EMPTY in roots)
  {
    kept, needEmpty := [], false;
    for i := 0 to |roots|
      invariant kept == Kept(roots[..i]) && (needEmpty <==> EMPTY in roots[..i])
    {
      assert roots[..i + 1] == roots[..i] + [roots[i]];
      FilterAppend(NotEmpty, roots[..i], roots[i]);
      if roots[i] == EMPTY {
        needEmpty := true;
      } else {
        kept := kept + [roots[i]];
      }
    }
    assert roots[..|roots|] == roots;
  }

  ghost function ReachableSet(doc: Components, roots: seq<string>): set<string> {
    set n | n in doc && Reachable(doc, roots, n)
  }

  // Collection succeeds, every root becomes a message, and every property of every collected message
  // lowers, to a field whose inline chain ends well.
  ghost predicate Buildable(doc: Components, roots: seq<string>) {
    && (forall n :: Reachable(doc, Kept(roots), n) ==> !Bad(doc, n))
    && (forall r :: r in Kept(roots) ==> r in doc && IsMessageComponent(doc[r]))
    && AllLower(doc, ReachableSet(doc, Kept(roots)))
    && AllEndWell(doc, ReachableSet(doc, Kept(roots)), Synthetic(roots))
  }

  ghost predicate AllLower(doc: Components, all: set<string>) {
    forall n :: n in all && n in doc && IsMessageComponent(doc[n]) ==> PropertiesLower(doc, doc[n])
  }

  ghost predicate AllEndWell(doc: Components, all: set<string>, extra: set<string>) {
    forall n :: n in all && n in doc && IsMessageComponent(doc[n]) ==> PropertiesEndWell(doc, all, extra, doc[n])
  }

  ghost predicate PropertiesEndWell(doc: Components, all: set<string>, extra: set<string>, sc: Schema)
    requires IsMessageComponent(sc)
  {
    forall p :: p in sc.properties.value ==> EndsWell(doc, all, extra, sc.properties.value[p], true, {})
  }

  // One message per name, in name order, under distinct legal identifiers; and every reference names
  // the one message of the component it stands for.
  ghost predicate IsDescriptorSet(doc: Components, all: set<string>, extra: set<string>, msgs: seq<BuiltMessage>) {
    && Named(msgs)
    && (forall n :: Built(doc, all, extra, n) <==> HasMessage(msgs, n))
    && FieldsBuilt(doc, all, msgs)
    && (forall i, k, t :: 0 <= i < |msgs| && 0 <= k < |msgs[i].fields| && t in RefsOf(msgs[i].fields[k].field.typ) ==>
          HasMessage(msgs, t))
  }

  ghost predicate Named(msgs: seq<BuiltMessage>) {
    && (forall i :: 0 <= i < |msgs| ==> Legal(msgs[i].name))
    && (forall i, j :: 0 <= i < j < |msgs| ==>
        Less(msgs[i].component, msgs[j].component) && msgs[i].name != msgs[j].name)
  }

  ghost predicate HasMessage(msgs: seq<BuiltMessage>, n: string) {
    exists i :: 0 <= i < |msgs| && msgs[i].component == n
  }

  ghost predicate FieldsBuilt(doc: Components, all: set<string>, msgs: seq<BuiltMessage>) {
    forall i :: 0 <= i < |msgs| ==>
      if msgs[i].component in all && msgs[i].component in doc && IsMessageComponent(doc[msgs[i].component])
      then MessageBuilt(doc, doc[msgs[i].component], msgs[i].fields)
      else msgs[i].fields == []
  }

  // The identifier a reference is written with; a Go map yields "" for a name it does not hold.
  function TypeName(msgNames: map<string, string>, t: string): string {
    if t in msgNames then msgNames[t] else ""
  }

  ghost predicate AllResolve(msgs: seq<BuiltMessage>, msgNames: map<string, string>) {
    forall i, k, t :: 0 <= i < |msgs| && 0 <= k < |msgs[i].fields| && t in RefsOf(msgs[i].fields[k].field.typ) ==>
        t in msgNames
  }

  ghost predicate EachHasMessage(msgs: seq<BuiltMessage>, msgNames: map<string, string>) {
    forall n :: n in msgNames ==> HasMessage(msgs, n)
  }

  // Descriptor validation, as far as references go: every type name is the name of a message.
  method ReferencesResolve(msgs: seq<BuiltMessage>, msgNames: map<string, string>) returns (ok: bool)
    requires forall i :: 0 <= i < |msgs| ==>
             msgs[i].component in msgNames && msgs[i].name == msgNames[msgs[i].component]
    requires EachHasMessage(msgs, msgNames) && forall n :: n in msgNames ==> msgNames[n] != ""
    ensures ok <==> AllResolve(msgs, msgNames)
  {
    var declared := set i | 0 <= i < |msgs| :: msgs[i].name;
    forall t ensures TypeName(msgNames, t) in declared <==> t in msgNames {
      if t in msgNames {
        var i :| 0 <= i < |msgs| && msgs[i].component == t;
        assert msgs[i].name in declared;
      }
    }
    for i := 0 to |msgs|
      invariant forall j, k, t ::
        0 <= j < i && 0 <= k < |msgs[j].fields| && t in RefsOf(msgs[j].fields[k].field.typ) ==> t in msgNames
    {
      for k := 0 to |msgs[i].fields|
        invariant forall l, t :: 0 <= l < k && t in RefsOf(msgs[i].fields[l].field.typ) ==> t in msgNames
      {
        if t :| t in RefsOf(msgs[i].fields[k].field.typ) && TypeName(msgNames, t) !in declared {
          return false;
        }
      }
    }
    return true;
  }

  method BuildMessages(doc: Components, needed: Components, names: seq<string>, msgNames: map<string, string>)
    returns (msgs: Option<seq<BuiltMessage>>)
    requires forall n :: n in names ==> n in msgNames
    requires forall n :: n in needed ==> n in doc && needed[n] == doc[n] && IsMessageComponent(doc[n])
    ensures msgs.Some? <==> forall n :: n in names && n in needed ==> PropertiesLower(doc, doc[n])
    ensures msgs.Some? ==> NamedMessages(doc, needed, names, msgNames, msgs.value)
  {
    var out: seq<BuiltMessage> := [];
    for i := 0 to |names|
      invariant |out| == i
      invariant forall k :: 0 <= k < i ==>
        && out[k].component == names[k] && out[k].name == msgNames[names[k]]
        && (if names[k] in needed
            then PropertiesLower(doc, doc[names[k]]) && MessageBuilt(doc, doc[names[k]], out[k].fields)
            else out[k].fields == [])
    {
      var n := names[i];
      assert n in names;
      if n !in needed {
        out := out + [BuiltMessage(n, msgNames[n], [])];
      } else {
        var fields := BuildMessage(doc, needed[n]);
        if fields.None? {
          return None;
        }
        out := out + [BuiltMessage(n, msgNames[n], fields.value)];
      }
    }
    return Some(out);
  }

  // Building succeeds exactly on buildable documents.
  method BuildDescriptors(doc: Components, roots: seq<string>) returns (msgs: Option<seq<BuiltMessage>>)
    ensures msgs.Some? <==> Buildable(doc, roots)
    ensures msgs.Some? ==> IsDescriptorSet(doc, ReachableSet(doc, Kept(roots)), Synthetic(roots), msgs.value)
  {
    var kept, needEmpty := PartitionEmpty(roots);
    var needed, all := CollectSchemas(doc, kept);
    if needed.None? {
      return None;
    }
    forall n ensures n in all <==> n in ReachableSet(doc, kept) {
      if n in all { assert !Bad(doc, n); }
    }
    assert all == ReachableSet(doc, kept);
    var rootsOk := RootsAreMessages(doc, kept, needed.value, all);
    if !rootsOk {
      return None;
    }
    msgs := BuildCollected(doc, needed.value, if needEmpty then {EMPTY} else {}, all);
  }

  ghost predicate Needed(doc: Components, all: set<string>, needed: Components) {
    && (forall n :: n in needed <==> n in all && n in doc && IsMessageComponent(doc[n]))
    && (forall n :: n in needed ==> n in doc && needed[n] == doc[n])
  }

  method BuildCollected(doc: Components, needed: Components, extra: set<string>, ghost all: set<string>)
    returns (msgs: Option<seq<BuiltMessage>>)
    requires ClosedGood(doc, all, all) && Needed(doc, all, needed)
    ensures msgs.Some? <==> AllLower(doc, all) && AllEndWell(doc, all, extra)
    ensures msgs.Some? ==> IsDescriptorSet(doc, all, extra, msgs.value)
  {
    var names := SortedKeys(needed.Keys + extra);
    SortedDistinct(names);
    var msgNames := SanitizeMessageNames(names);
    msgs := BuildMessages(doc, needed, names, msgNames);
    NamesLower(doc, all, extra, needed, names);
    if msgs.None? {
      return None;
    }
    var valid := Validate(doc, needed, extra, names, msgNames, msgs.value, all);
    if !valid {
      return None;
    }
  }

  // Descriptor validation of the built messages.
  method Validate(doc: Components, needed: Components, ghost extra: set<string>, names: seq<string>,
      msgNames: map<string, string>,
      msgs: seq<BuiltMessage>, ghost all: set<string>) returns (ok: bool)
    requires ClosedGood(doc, all, all) && Needed(doc, all, needed)
    requires StrictlySorted(names) && Assigned(names, msgNames) && forall n :: n in names <==> n in needed.Keys + extra
    requires NamedMessages(doc, needed, names, msgNames, msgs)
    ensures ok <==> AllEndWell(doc, all, extra)
    ensures ok ==> IsDescriptorSet(doc, all, extra, msgs)
  {
    NamesAreMessages(names, msgNames, msgs);
    ok := ReferencesResolve(msgs, msgNames);
    MessagesOfCollected(doc, needed, all, names, msgNames, msgs);
    NamesAreBuilt(doc, all, extra, needed, names, msgNames);
    ReferencesExactly(doc, all, extra, msgs, msgNames);
    if ok { Completed(doc, all, extra, names, msgNames, msgs); }
  }

  lemma NamesLower(doc: Components, all: set<string>, extra: set<string>, needed: Components, names: seq<string>)
    requires Needed(doc, all, needed) && forall n :: n in names <==> n in needed.Keys + extra
    ensures (forall n :: n in names && n in needed ==> PropertiesLower(doc, doc[n])) <==> AllLower(doc, all)
  {
    forall n | n in needed ensures n in names {}
  }

  lemma NamesAreBuilt(doc: Components, all: set<string>, extra: set<string>, needed: Components, names: seq<string>,
      msgNames: map<string, string>)
    requires Needed(doc, all, needed) && Assigned(names, msgNames) && forall n :: n in names <==>
             n in needed.Keys + extra
    ensures forall n :: n in msgNames <==> Built(doc, all, extra, n)
  {
  }

  // The message of each name: built from its component, or synthetic.
  ghost predicate NamedMessages(doc: Components, needed: Components, names: seq<string>, msgNames: map<string, string>,
      msgs: seq<BuiltMessage>)
    requires forall n :: n in needed ==> n in doc && IsMessageComponent(doc[n])
    requires forall n :: n in names ==> n in msgNames
  {
    |msgs| == |names| && forall i :: 0 <= i < |names| ==>
      && msgs[i].component == names[i] && msgs[i].name == msgNames[names[i]]
      && (if names[i] in needed then MessageBuilt(doc, doc[names[i]], msgs[i].fields) else msgs[i].fields == [])
  }

  lemma MessagesOfCollected(doc: Components, needed: Components, all: set<string>, names: seq<string>,
      msgNames: map<string, string>,
      msgs: seq<BuiltMessage>)
    requires Needed(doc, all, needed) && (forall n :: n in names ==> n in msgNames)
    requires NamedMessages(doc, needed, names, msgNames, msgs)
    ensures FieldsBuilt(doc, all, msgs)
  {
  }

  lemma Completed(doc: Components, all: set<string>, extra: set<string>, names: seq<string>,
      msgNames: map<string, string>, msgs: seq<BuiltMessage>)
    requires FieldsBuilt(doc, all, msgs) && Assigned(names, msgNames) && StrictlySorted(names)
    requires forall n :: n in msgNames <==> Built(doc, all, extra, n)
    requires |msgs| == |names| && forall i :: 0 <= i < |names| ==>
             msgs[i].component == names[i] && msgs[i].name == msgNames[names[i]]
    requires AllResolve(msgs, msgNames) && EachHasMessage(msgs, msgNames)
    ensures IsDescriptorSet(doc, all, extra, msgs)
  {
    MessagesNamed(names, msgNames, msgs);
    forall n ensures Built(doc, all, extra, n) <==> HasMessage(msgs, n) {
      if i :| 0 <= i < |msgs| && msgs[i].component == n { assert names[i] in names; }
    }
  }

  lemma MessagesNamed(names: seq<string>, msgNames: map<string, string>, msgs: seq<BuiltMessage>)
    requires Assigned(names, msgNames) && StrictlySorted(names)
    requires |msgs| == |names| && forall i :: 0 <= i < |names| ==>
             msgs[i].component == names[i] && msgs[i].name == msgNames[names[i]]
    ensures Named(msgs)
  {
    SortedDistinct(names);
    forall i, j | 0 <= i < j < |msgs| ensures msgs[i].name != msgs[j].name {
      assert names[i] in names && names[j] in names;
    }
  }

  lemma NamesAreMessages(names: seq<string>, msgNames: map<string, string>, msgs: seq<BuiltMessage>)
    requires forall n :: n in msgNames <==> n in names
    requires |msgs| == |names| && forall i :: 0 <= i < |names| ==> msgs[i].component == names[i]
    ensures EachHasMessage(msgs, msgNames)
  {
    forall n | n in msgNames ensures exists i :: 0 <= i < |msgs| && msgs[i].component == n {
      assert n in names;
      var i :| 0 <= i < |names| && names[i] == n;
      assert msgs[i].component == n;
    }
  }

  method RootsAreMessages(doc: Components, kept: seq<string>, needed: Components, ghost all: set<string>)
      returns (ok: bool)
    requires CollectedExactly(doc, kept, needed)
    ensures ok <==> forall r :: r in kept ==> r in doc && IsMessageComponent(doc[r])
  {
    for i := 0 to |kept|
      invariant forall k :: 0 <= k < i ==> kept[k] in doc && IsMessageComponent(doc[kept[k]])
    {
      ReachesSelf(doc, kept[i]);
      assert kept[i] in kept;
      assert Reachable(doc, kept, kept[i]);
      if kept[i] !in needed {
        return false;
      }
    }
    return true;
  }

  // References resolve exactly when the properties they were lowered from end well.
  lemma ReferencesExactly(doc: Components, all: set<string>, extra: set<string>, msgs: seq<BuiltMessage>,
      msgNames: map<string, string>)
    requires ClosedGood(doc, all, all) && FieldsBuilt(doc, all, msgs) && EachHasMessage(msgs, msgNames)
    requires forall n :: n in msgNames <==> Built(doc, all, extra, n)
    ensures AllResolve(msgs, msgNames) <==> AllEndWell(doc, all, extra)
  {
    if AllEndWell(doc, all, extra) {
      forall i, k, t | 0 <= i < |msgs| && 0 <= k < |msgs[i].fields| && t in RefsOf(msgs[i].fields[k].field.typ)
        ensures t in msgNames
      {
        ReferenceResolves(doc, all, extra, msgs[i], k, t);
      }
    } else {
      var n :| n in all && n in doc && IsMessageComponent(doc[n]) && !PropertiesEndWell(doc, all, extra, doc[n]);
      assert Built(doc, all, extra, n);
      var i :| 0 <= i < |msgs| && msgs[i].component == n;
      var k, t := ReferenceDangles(doc, all, extra, msgs[i]);
      assert t !in msgNames;
    }
  }

  lemma ReferenceResolves(doc: Components, all: set<string>, extra: set<string>, m: BuiltMessage, k: nat, t: string)
    requires ClosedGood(doc, all, all) && AllEndWell(doc, all, extra)
    requires m.fields == [] || (m.component in all && m.component in doc && IsMessageComponent(doc[m.component])
                                && MessageBuilt(doc, doc[m.component], m.fields))
    requires k < |m.fields| && t in RefsOf(m.fields[k].field.typ)
    ensures Built(doc, all, extra, t)
  {
    var p := PropertyOfField(doc, doc[m.component], m.fields, k);
    PropertyExactly(doc, all, extra, m.component, p);
  }

  lemma ReferenceDangles(doc: Components, all: set<string>, extra: set<string>, m: BuiltMessage)
      returns (k: nat, t: string)
    requires ClosedGood(doc, all, all) && m.component in all && m.component in doc
             && IsMessageComponent(doc[m.component])
    requires MessageBuilt(doc, doc[m.component], m.fields) && !PropertiesEndWell(doc, all, extra, doc[m.component])
    ensures k < |m.fields| && t in RefsOf(m.fields[k].field.typ) && !Built(doc, all, extra, t)
  {
    var n := m.component;
    var p :| p in doc[n].properties.value && !EndsWell(doc, all, extra, doc[n].properties.value[p], true, {});
    PropertyExactly(doc, all, extra, n, p);
    t :| t in Emitted(BuildField(doc, doc[n].properties.value[p], {})) && !Built(doc, all, extra, t);
    k := FieldOfProperty(doc, doc[n], m.fields, p);
  }

  lemma PropertyOfField(doc: Components, sc: Schema, fields: seq<NumberedField>, k: nat) returns (p: string)
    requires IsMessageComponent(sc) && MessageBuilt(doc, sc, fields) && k < |fields|
    ensures p in sc.properties.value && BuildField(doc, sc.properties.value[p], {}) == Lowered(fields[k].field)
  {
    p := Sorted(sc.properties.value.Keys)[k];
  }

  lemma FieldOfProperty(doc: Components, sc: Schema, fields: seq<NumberedField>, p: string) returns (k: nat)
    requires IsMessageComponent(sc) && MessageBuilt(doc, sc, fields) && p in sc.properties.value
    ensures k < |fields| && BuildField(doc, sc.properties.value[p], {}) == Lowered(fields[k].field)
  {
    var keys := Sorted(sc.properties.value.Keys);
    assert p in keys;
    k :| 0 <= k < |keys| && keys[k] == p;
  }

  lemma PropertyExactly(doc: Components, all: set<string>, extra: set<string>, n: string, p: string)
    requires ClosedGood(doc, all, all) && n in all && n in doc && IsMessageComponent(doc[n])
             && p in doc[n].properties.value
    ensures RefsBuilt(doc, all, extra, BuildField(doc, doc[n].properties.value[p], {}))
       <==> EndsWell(doc, all, extra, doc[n].properties.value[p], true, {})
  {
    var prop := doc[n].properties.value[p];
    if WalkTarget(prop).Some? { assert RefersTo(doc, n, WalkTarget(prop).value); }
    LoweredRefsExactly(doc, all, extra, prop, true, {});
  }

  // Where each schema has one form, no alias leads to anything but a message and no collected component
  // inlines itself, lowering ends on every property and every reference resolves.
  lemma DisciplinedResolves(doc: Components, all: set<string>, extra: set<string>)
    requires ClosedGood(doc, all, all) && Disciplined(doc, all) && InlineAcyclic(doc, all)
    ensures AllEndWell(doc, all, extra)
    ensures forall n, p :: n in all && n in doc && IsMessageComponent(doc[n]) && p in doc[n].properties.value ==>
              Ends(doc, doc[n].properties.value[p])
  {
    forall n, p | n in all && n in doc && IsMessageComponent(doc[n]) && p in doc[n].properties.value
      ensures Ends(doc, doc[n].properties.value[p]) && EndsWell(doc, all, extra, doc[n].properties.value[p], true, {})
    {
      var prop := doc[n].properties.value[p];
      if WalkTarget(prop).Some? { assert RefersTo(doc, n, WalkTarget(prop).value); }
      DisciplinedEndsWell(doc, all, extra, prop, {});
      CollectedEnds(doc, all, prop);
    }
  }

  // --- documents that collect and lower, and still do not build ---

  // Collection and lowering go through, and then a reference names no message.
  ghost predicate OnlyDangles(doc: Components, roots: seq<string>) {
    && (forall n :: Reachable(doc, Kept(roots), n) ==> !Bad(doc, n))
    && (forall r :: r in Kept(roots) ==> r in doc && IsMessageComponent(doc[r]))
    && AllLower(doc, ReachableSet(doc, Kept(roots)))
    && !AllEndWell(doc, ReachableSet(doc, Kept(roots)), Synthetic(roots))
  }

  const PLAIN := Schema("", "", "", false, None, None, [], [], [], Absent, NoDiscriminator)

  function Object(properties: map<string, Schema>): Schema {
    PLAIN.(typ := "object", properties := Some(properties))
  }

  function RefTo(name: string): Schema {
    PLAIN.(ref := name)
  }

  // Reached from one root: a closed set of which every member can be reached.
  lemma ReachableIs(doc: Components, root: string, s: set<string>)
    requires root in s && root != EMPTY && ClosedGood(doc, s, s) && forall n :: n in s ==> Reaches(doc, root, n)
    ensures Kept([root]) == [root] && Synthetic([root]) == {}
    ensures ReachableSet(doc, [root]) == s && forall n :: Reachable(doc, [root], n) ==> !Bad(doc, n)
  {
    assert [root][1..] == [] && Filter(NotEmpty, [root][1..]) == [] && root in [root];
    forall n ensures Reachable(doc, [root], n) <==> n in s {
      if Reachable(doc, [root], n) {
        var r :| r in [root] && Reaches(doc, r, n);
        var path :| IsRefPath(doc, path, r, n);
        ClosedContainsReachable(doc, s, path, r, n);
      }
    }
    forall n | n in s ensures n in doc { assert !Bad(doc, n); }
  }

  // One message whose one property is `prop`, beside other components.
  function OneProperty(prop: Schema, others: Components): Components {
    others["Root" := Object(map["p" := prop])]
  }

  lemma RootReaches(prop: Schema, others: Components, t: string)
    requires WalkTarget(prop) == Some(t)
    ensures Reaches(OneProperty(prop, others), "Root", "Root") && Reaches(OneProperty(prop, others), "Root", t)
  {
    var doc := OneProperty(prop, others);
    assert "p" in doc["Root"].properties.value;
    ReachesSelf(doc, "Root");
    ReachesSelf(doc, t);
    ReachesThrough(doc, "Root", t, t);
  }

  // Only the root's property decides.
  lemma RootDecides(prop: Schema, others: Components, s: set<string>)
    requires var doc := OneProperty(prop, others);
             && Kept(["Root"]) == ["Root"] && Synthetic(["Root"]) == {} && ReachableSet(doc, ["Root"]) == s
                 && "Root" in s
             && (forall n :: Reachable(doc, ["Root"], n) ==> !Bad(doc, n))
             && (forall n :: n in s && n in doc && n != "Root" && IsMessageComponent(doc[n]) ==>
                 doc[n].properties == Some(map[]))
             && BuildField(doc, prop, {}).Lowered?
    ensures var doc := OneProperty(prop, others);
            if EndsWell(doc, s, {}, prop, true, {}) then Buildable(doc, ["Root"]) else OnlyDangles(doc, ["Root"])
  {
    var doc := OneProperty(prop, others);
    var root := doc["Root"];
    assert root.properties.value == map["p" := prop];
    assert PropertiesLower(doc, root);
    assert PropertiesEndWell(doc, s, {}, root) <==> EndsWell(doc, s, {}, root.properties.value["p"], true, {});
  }

  // A reference written with a path, as every OpenAPI document writes it: the component it names is
  // reached, and the document builds.
  lemma PathReferenceBuilds(path: string, name: string)
    requires '/' !in name && name != "Root"
    ensures var doc := OneProperty(RefTo(path + "/" + name), map[name := Object(map[])]);
            Reachable(doc, ["Root"], name) && Buildable(doc, ["Root"])
  {
    var ref := path + "/" + name;
    var others: Components := map[name := Object(map[])];
    var doc := OneProperty(RefTo(ref), others);
    RefNameOfPath(path, name);
    RootReaches(RefTo(ref), others, name);
    PathReferenceClosed(doc, ref, name);
    ReachableIs(doc, "Root", {"Root", name});
    assert "Root" in ["Root"];
    assert NullableAnyOf(RefTo(ref)).None? && WktOf(RefTo(ref)).None?;
    RootDecides(RefTo(ref), others, {"Root", name});
  }

  lemma PathReferenceClosed(doc: Components, ref: string, name: string)
    requires RefName(ref) == name != "Root" && doc == OneProperty(RefTo(ref), map[name := Object(map[])])
    requires ref != ""
    ensures ClosedGood(doc, {"Root", name}, {"Root", name})
  {
    assert WalkTarget(RefTo(ref)) == Some(name);
    assert doc["Root"] == Object(map["p" := RefTo(ref)]) && doc[name] == Object(map[]);
  }

  lemma ItemReferenceBuilds()
    ensures var doc := OneProperty(RefTo("#/components/schemas/Item"), map["Item" := Object(map[])]);
            Reachable(doc, ["Root"], "Item") && Buildable(doc, ["Root"])
  {
    assert "#/components/schemas/Item" == "#/components/schemas" + "/" + "Item";
    PathReferenceBuilds("#/components/schemas", "Item");
  }

  // A $ref beside a nullable anyOf: collection follows the $ref, lowering the anyOf, and what that one
  // names need not even be defined.
  lemma TwoFormsDangle()
    ensures var both := RefTo("M").(anyOf := [RefTo("N"), PLAIN.(typ := "null")]);
            OnlyDangles(OneProperty(both, map["M" := Object(map[])]), ["Root"])
  {
    var both := RefTo("M").(anyOf := [RefTo("N"), PLAIN.(typ := "null")]);
    var others := map["M" := Object(map[])];
    assert RefName("M") == "M" && RefName("N") == "N";
    RootReaches(both, others, "M");
    ReachableIs(OneProperty(both, others), "Root", {"Root", "M"});
    TwoFormsLower(OneProperty(both, others), {"Root", "M"}, both);
    RootDecides(both, others, {"Root", "M"});
  }

  lemma TwoFormsLower(doc: Components, all: set<string>, both: Schema)
    requires both == RefTo("M").(anyOf := [RefTo("N"), PLAIN.(typ := "null")]) && "N" !in doc && "N" !in all
    ensures BuildField(doc, both, {}).Lowered? && !EndsWell(doc, all, {}, both, true, {})
  {
    assert RefName("M") == "M" && RefName("N") == "N";
    assert NullableAnyOf(both) == Some(RefTo("N")) && NullableAnyOf(RefTo("N")).None? && WktOf(RefTo("N")).None?;
    assert !EndsWell(doc, all, {}, RefTo("N"), false, {});
  }

  // A component that is the nullable form of itself: collection accepts the document, and lowering the
  // one property never comes back.
  lemma NullableSelfDiverges()
    ensures var self := PLAIN.(anyOf := [RefTo("A"), PLAIN.(typ := "null")]);
            var doc := OneProperty(RefTo("A"), map["A" := self]);
            && (forall n :: Reachable(doc, Kept(["Root"]), n) ==> !Bad(doc, n))
                && Reachable(doc, Kept(["Root"]), "Root")
            && !Ends(doc, RefTo("A"))
  {
    var self := PLAIN.(anyOf := [RefTo("A"), PLAIN.(typ := "null")]);
    var others := map["A" := self];
    var doc := OneProperty(RefTo("A"), others);
    assert RefName("A") == "A";
    assert NullableAnyOf(self) == Some(RefTo("A")) && NullableAnyOf(RefTo("A")).None? && WktOf(RefTo("A")).None?;
    RootReaches(RefTo("A"), others, "A");
    ReachableIs(doc, "Root", {"Root", "A"});
    assert "Root" in ReachableSet(doc, ["Root"]);
    SelfReturns(doc, self);
    LoweringEndsExactly(doc, RefTo("A"));
  }

  lemma SelfReturns(doc: Components, self: Schema)
    requires "A" in doc && doc["A"] == self && self == PLAIN.(anyOf := [RefTo("A"), PLAIN.(typ := "null")])
    ensures Returns(doc, RefTo("A"), {}, ["A", "A"])
  {
    assert RefName("A") == "A" && WktOf(RefTo("A")).None? && NullableAnyOf(RefTo("A")).None?;
    assert NullableAnyOf(self) == Some(RefTo("A"));
    assert Inlines(doc, RefTo("A")) == Some("A") && Inlines(doc, self) == Some("A");
    var w := ["A", "A"];
    assert w[1..] == ["A"] && ["A"][1..] == [] && w[..1] == ["A"];
    assert IsInlineChain(doc, self, ["A"]);
  }

  // What an alias of a scalar component does under array items, as a map value, and plainly.
  lemma AliasWalked(prop: Schema, others: Components)
    requires others == map["Alias" := RefTo("Id"), "Id" := PLAIN.(typ := "string")]
    requires WalkTarget(prop) == Some("Alias") && !RejectUnsupported(prop)
    ensures var doc := OneProperty(prop, others);
            && Kept(["Root"]) == ["Root"] && Synthetic(["Root"]) == {}
                && ReachableSet(doc, ["Root"]) == {"Root", "Alias", "Id"}
            && forall n :: Reachable(doc, ["Root"], n) ==> !Bad(doc, n)
  {
    var doc := OneProperty(prop, others);
    assert RefName("Id") == "Id";
    RootReaches(prop, others, "Alias");
    ReachesSelf(doc, "Id");
    ReachesThrough(doc, "Alias", "Id", "Id");
    assert "p" in doc["Root"].properties.value;
    ReachesThrough(doc, "Root", "Alias", "Id");
    ReachableIs(doc, "Root", {"Root", "Alias", "Id"});
  }

  // "Alias" is a bare $ref of the scalar component "Id".
  ghost predicate HasAlias(doc: Components) {
    "Alias" in doc && "Id" in doc && doc["Alias"] == RefTo("Id") && doc["Id"] == PLAIN.(typ := "string")
  }

  lemma AliasUnderItemsDangles()
    ensures var items := PLAIN.(typ := "array", items := Some(RefTo("Alias")));
            OnlyDangles(OneProperty(items, map["Alias" := RefTo("Id"), "Id" := PLAIN.(typ := "string")]), ["Root"])
  {
    var items := PLAIN.(typ := "array", items := Some(RefTo("Alias")));
    var others := map["Alias" := RefTo("Id"), "Id" := PLAIN.(typ := "string")];
    assert RefName("Alias") == "Alias";
    AliasWalked(items, others);
    ItemsLower(OneProperty(items, others), {"Root", "Alias", "Id"}, items);
    RootDecides(items, others, {"Root", "Alias", "Id"});
  }

  lemma ItemsLower(doc: Components, all: set<string>, items: Schema)
    requires HasAlias(doc) && items == PLAIN.(typ := "array", items := Some(RefTo("Alias"))) && "Alias" in all
    ensures BuildField(doc, items, {}).Lowered? && !EndsWell(doc, all, {}, items, true, {})
  {
    assert RefName("Alias") == "Alias" && RefName("Id") == "Id";
    assert WktOf(RefTo("Id")).None? && WktOf(items).None? && NullableAnyOf(items).None?;
    assert BuildArray(doc, RefTo("Alias")) == Lowered(Field(MessageType("Id"), true, false));
    assert !ElementEndsWell(doc, all, {}, RefTo("Alias"), true, true);
  }

  lemma AliasAsMapValueDangles()
    ensures var dict := PLAIN.(typ := "object", additional := SchemaForm(RefTo("Alias")));
            OnlyDangles(OneProperty(dict, map["Alias" := RefTo("Id"), "Id" := PLAIN.(typ := "string")]), ["Root"])
  {
    var dict := PLAIN.(typ := "object", additional := SchemaForm(RefTo("Alias")));
    var others := map["Alias" := RefTo("Id"), "Id" := PLAIN.(typ := "string")];
    assert RefName("Alias") == "Alias";
    AliasWalked(dict, others);
    MapValueLowers(OneProperty(dict, others), {"Root", "Alias", "Id"}, dict);
    RootDecides(dict, others, {"Root", "Alias", "Id"});
  }

  lemma MapValueLowers(doc: Components, all: set<string>, dict: Schema)
    requires HasAlias(doc) && dict == PLAIN.(typ := "object", additional := SchemaForm(RefTo("Alias")))
             && "Alias" in all
    ensures BuildField(doc, dict, {}).Lowered? && !EndsWell(doc, all, {}, dict, true, {})
  {
    assert RefName("Alias") == "Alias" && RefName("Id") == "Id";
    assert WktOf(dict).None? && NullableAnyOf(dict).None?;
    assert BuildMapField(doc, RefTo("Alias")) == Lowered(Field(EntryType(MessageType("Id")), true, false));
    assert !ElementEndsWell(doc, all, {}, RefTo("Alias"), false, true);
  }

  // The same alias as a plain property is harmless: it is inlined all the way down.
  lemma AliasAsPropertyBuilds()
    ensures Buildable(OneProperty(RefTo("Alias"), map["Alias" := RefTo("Id"), "Id" := PLAIN.(typ := "string")]),
            ["Root"])
  {
    var others := map["Alias" := RefTo("Id"), "Id" := PLAIN.(typ := "string")];
    assert RefName("Alias") == "Alias";
    AliasWalked(RefTo("Alias"), others);
    PropertyLowers(OneProperty(RefTo("Alias"), others), {"Root", "Alias", "Id"});
    RootDecides(RefTo("Alias"), others, {"Root", "Alias", "Id"});
  }

  lemma PropertyLowers(doc: Components, all: set<string>)
    requires HasAlias(doc)
    ensures BuildField(doc, RefTo("Alias"), {}).Lowered? && EndsWell(doc, all, {}, RefTo("Alias"), true, {})
  {
    var id := PLAIN.(typ := "string");
    assert RefName("Alias") == "Alias" && RefName("Id") == "Id";
    assert NullableAnyOf(RefTo("Alias")).None? && NullableAnyOf(RefTo("Id")).None? && NullableAnyOf(id).None?;
    assert WktOf(RefTo("Alias")).None? && WktOf(RefTo("Id")).None? && WktOf(id).None?;
    var one, two := {} + {"Alias"}, {} + {"Alias"} + {"Id"};
    assert BuildField(doc, id, two).Lowered? && EndsWell(doc, all, {}, id, "Id" in all, two);
    assert BuildField(doc, RefTo("Id"), one).Lowered? && EndsWell(doc, all, {}, RefTo("Id"), "Alias" in all, one);
  }
}
