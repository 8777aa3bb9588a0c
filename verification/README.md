# Wavefront: a verified model of the contract gateway's core

Wavefront sits between clients that speak an old contract version and a backend that speaks a new
one. Each contract carries small shims (rename, default, optionalize, coerce) that rewrite JSON
bodies on the way in and on the way out, chained from version to version. This project models that
machinery in Dafny and proves what its design rests on. `dafny verify dfyconfig.toml` checks all of it.

The form follows the source. The runtime that mutates a decoded map is a class over a store of
mutable nodes (`Store`, `InPlace`), proved equal to an interpreter written as functions
(`Transform`); the laws are proved about those functions. What such a function computes is also said
without it: an op list by the places it changes (`Meaning`), a loaded bundle by the entries it was
loaded from (`Serving`), a built message by the JSON its schema describes (`FieldForms`).
Collectors, matchers, sorters, loaders and lookups are methods with loops, proved against
specifications that say what their result is. The exporter, the connection tracker and the bundle
directory are classes whose methods take one step of a transition function; runs are sequences of
such steps in any order.

| part | modules |
|---|---|
| JSON trees, the two number kinds, re-encoding | `Json` |
| transform runtime, in place and as functions | `Store`, `InPlace`, `Transform` |
| what an op list means, told by places in the body | `Places`, `Meaning` |
| laws of the runtime | `WalkLaws`, `OptionalizeLaws`, `DefaultLaws`, `CoerceLaws`, `FusionLaws`, `MirrorLaws` |
| path texts, path check against descriptors | `PathText`, `PathCheck`, `ListSoundness` |
| bundle loading, selector rules, chains, lookup | `Rules`, `Chains`, `Loading`, `Lookups` |
| a request, from the override entries to the reply | `Serving` |
| OpenAPI to descriptors | `Order`, `Collections`, `Names`, `Schemas`, `Lowering`, `Descriptors` |
| the JSON values schemas describe and messages accept | `FieldForms` |
| shim drafting | `Matching`, `Drift`, `DriftLaws` |
| bundle directory | `Lifecycle`, `LifecycleLoads` |
| span exporter, connection tracker | `Exporter`, `Boundary` |

## What turned out false, and when it holds

- **Optionalize coverage.** docs/protocol.md:146-149 promises that `optionalize data` covers
  `data.user.email`. The walker tests coverage on the *remaining* path at an absent intermediate
  (internal/transform/walk.go:49), so a missing `data.user` still fails. `DocumentedExactly`: the
  walker keeps the documented promise on every object iff every proper suffix of two or more segments
  has the same coverage verdict as the whole path. The model follows the code.
- **Adding optionalize to an empty list** can break a call: the empty list never parses its body.
  `MonotoneExactly` shows this is the only exception.
- **Fusing chain links** changes behaviour when an injected integer meets a later coerce: encoding
  between links turns the Go integer into a float, which coerce accepts; in one list it stays an
  integer, which coerce refuses. `FusionExactly`: where the two calls succeed, the fused call gives the
  same tree iff its second half meets no integer at a leaf it coerces. `Fusion` gives a condition on
  the lists alone that is enough, `FusionNeedsTheCondition` an instance that fails.
  `ForwardFusesExactly` says the same of a whole chain.
- **Drafted coerce stanzas** carry the drafter's type tokens (`string`, `boolean`, `int32`, `int64`,
  `float`, `double`), while the loader accepts `string`, `number` and `bool`. A drafted type change
  loads exactly when the new type is `string` (`DraftedCoerceLoadsExactly`).
- **Retire, then Remove** leaves the override of the removed version behind, and the loader refuses a
  file that names an unknown version. Adding the version again can revive an override whose target is
  gone (`ReaddedDangles`). `RunKeepsTargetsExactly`: targets stay present over a run iff no Add brings
  back a layer with a left-behind override to a missing target. `LoadsExactly`: after any run the
  loader accepts the overrides iff each has its source and its target among the layers.
- **Path validation** looks a name up as proto name first, while bodies are keyed by JSON name. When
  one field's proto name is another's JSON name, an accepted path can meet a wrong shape
  (`CollidingNamesBreakSoundness`). `ShapeSafeExactly` gives the exact condition on descriptors, with
  the JSON forms of Struct, Value and ListValue.
- **Accepted lists.** Each accepted path is sound on a conforming body, but only the first op is sure to
  see one: a rename can put a scalar where a later path expects an object (`WrittenThroughClashes`).
  `StepKeepsClearExactly`: an op keeps every body on which a path is clear that way iff it does not
  write through that path. `PairExactly`: two ops never clash on a body on which both their paths are
  clear iff the first does not write through the path of the second. The loader does not check the field
  of a request default, so a default alone can clash on a conforming body (`UnsafeDefaultClashes`);
  `DefaultShapeSafeExactly`: it never does iff its path is shape-safe. An accepted request list with
  shape-safe defaults, of which no op writes through a later path, never meets a wrong shape
  (`AcceptedListNeverClashes`).
- **Lowering** takes one step of inlining under array items and map values, so an alias component
  there can name a message nobody builds (`AliasUnderItemsDangles`, `AliasAsMapValueDangles`), and a
  `$ref` beside a nullable `anyOf` is collected along one and lowered along the other
  (`TwoFormsDangle`). Each is a document that collects and lowers, and that descriptor validation then
  refuses. `LoweredRefsExactly` says for any property when its references are built, from the end of
  its inline chain; `BuildDescriptors` succeeds, as far as references go, exactly on the documents that
  collect, whose roots are objects and of which every property lowers and ends well. A component that is the nullable form of itself never stops lowering (`NullableSelfDiverges`;
  `DocumentEndsExactly`: every lowering ends iff no component inlines itself).
- **Explicit empty properties.** A component with `properties: {}` beside `additionalProperties` passes
  collection and becomes a message without fields, so every value with a key that its schema describes
  is refused as JSON of that message. `CarriesExactly`: over a document of plain object components the
  built messages accept everything these describe iff none of them takes keys it does not declare.
- **Greedy matching** uses the empty string to mean "no match", so an added field named `""` takes no
  partner and hides the other fields with its key (`EmptyNameBeatsPass`). `MatchByKey` counts the pairs
  per key exactly: none for the empty name's key, otherwise the smaller of the two sides.
  `MaximumExactly`: a pass is a maximum iff no removed field has the key of an added empty name.
- **Shutdown** is meant to wait for the queue to drain. Between the drain's default case and the
  deferred close of the done channel a span can still be accepted; it is never exported
  (`SpanLostAtClose`). `ClosedDrainedExactly`: at the close everything accepted has been handed to
  export iff no span was ended since the queue was found empty, in particular when none is ended after
  Shutdown was called (`QuietShutdownDrains`).

## Model

| member | source | states |
|---|---|---|
| `Json.ReencodeIdentity` | internal/transform/transform.go:141-145 | encoding and decoding again changes nothing in a tree without injected integers |
| `Json.ReencodeIsDecoded` | internal/transform/transform.go:141-145 | what any encodable tree re-encodes to is a decoded tree: no Go integer and no non-finite float is left |
| `Store.RepresentsFramed` | internal/transform/walk.go:38-75 | a value in the store stands for the same tree as long as its own nodes are untouched |
| `Store.ElementChanged` | internal/transform/walk.go:59-67 | changing one array element in place changes the represented array at that index only |
| `Store.FieldChanged` | internal/transform/walk.go:70-74 | changing an object below one field in place changes the represented object at that field only |
| `Store.NodeRewritten` | internal/transform/transform.go:106-107 | rewriting an object's own node with old children, none used twice, represents the rewritten object |
| `InPlace.Runtime.RenameInPlace` | internal/transform/transform.go:93-111 | delete and assign in the shared map equal the functional rename: absent source, present target and success each as specified, nothing outside the object touched |
| `InPlace.Runtime.DefaultInPlace` | internal/transform/transform.go:113-118 | the write to a missing or null leaf equals the functional default, and no other node changes |
| `InPlace.Runtime.CoerceInPlace` | internal/transform/transform.go:122-136 | the in-place coerce equals the functional one, whose values `Meaning.CoerceValueExactly` gives, and needs only the value's top level |
| `InPlace.Runtime.ApplyVerb` | internal/transform/transform.go:93-136 | whichever callback runs on a leaf parent, the store ends up representing the verb's result |
| `InPlace.Runtime.WalkLeaves` | internal/transform/walk.go:38-75 | the recursive in-place walker ends with the represented tree the read-mode walk computes, or the same failure, and touches only nodes below its object |
| `InPlace.Runtime.WalkElements` | internal/transform/walk.go:54-69 | the loop over array elements, left at the first failing one, equals the walk over the list |
| `InPlace.Runtime.WalkLeavesEnsureObjects` | internal/transform/walk.go:86-125 | the write-mode walker, which creates missing or null objects in place, equals the functional write-mode walk |
| `InPlace.Runtime.EnsureBelowNew` | internal/transform/walk.go:115-119 | a fresh object is linked under the missing field and then filled, and nothing else sees it |
| `InPlace.Runtime.EnsureElements` | internal/transform/walk.go:96-114 | the write-mode loop over an array equals the functional one |
| `InPlace.Runtime.RunOp` | internal/transform/transform.go:89-140 | one op with the optionalize set met so far is one step of the interpreter |
| `InPlace.Runtime.RunOps` | internal/transform/transform.go:88-140 | the loop with its growing optionalize set equals the recursive run over the op list |
| `InPlace.Runtime.Unmarshal` | internal/transform/transform.go:84-87 | decoding builds new nodes only, one per object, that represent the tree |
| `InPlace.Runtime.Marshal` | internal/transform/transform.go:141-145 | encoding fails exactly on non-finite floats, and is otherwise the re-encoded tree |
| `InPlace.ApplyBody` | internal/transform/transform.go:74-146 | the whole call in place refines `Transform.Apply` on every op list and every body, object or not; it answers exactly what the list means for the body, told by places and values without the interpreter, and fails only for one of the list's own reasons |
| `Places.CoversExactly` | internal/transform/walk.go:18-31 | the set of stanzas collected so far excuses a path iff an earlier optionalize op names a prefix of it |
| `Places.Obstructed` | internal/transform/walk.go:38-75 | a listing that fails met, at a place the path leads to, an absence nothing excuses or a value of the wrong shape, and fails as that |
| `Places.Unobstructed` | internal/transform/walk.go:38-75 | a listing that succeeds met none |
| `Places.ListedExactly` | internal/transform/walk.go:38-75 | the objects handed to the verb are exactly those at which the path, a key for each segment and an index after each that iterates, finds an object |
| `Places.WriteObstructed` | internal/transform/walk.go:86-125 | a writer that fails met a wrong shape, or a missing field below which an array would have to be there |
| `Places.WriteAt` | internal/transform/walk.go:86-125 | at every leaf parent, created ones included, the default is set where nothing or null was, and the object is otherwise as before |
| `Places.WriteFrame` | internal/transform/walk.go:86-125 | no place that is not on a line with one of those changes |
| `Places.Determined` | internal/transform/walk.go:38-125 | the objects at the leaf parents, with everything else as it was, determine the tree |
| `Meaning.CoerceValueExactly` | internal/transform/transform.go:150-195 | coerce takes a value to itself when it has the type, a number to its formatted text, a text to the number it parses to, and true and false to and from "true" and "false"; and to nothing else |
| `Meaning.VerbExactly` | internal/transform/transform.go:93-136 | what rename and coerce make of one object, exactly: the value moved to the other name, the value converted in place, or nothing when the leaf is absent and excused; every other field kept |
| `Meaning.VerbRefuses` | internal/transform/transform.go:93-136 | when they refuse it, and for which reason, exactly: absent and not excused, target present, no value it converts to |
| `Meaning.StepExactly` | internal/transform/transform.go:89-140 | one step gives a body iff nothing stands in the way of the path, each of its leaf parents becomes what the verb makes of it, and no other place changes |
| `Meaning.StepFails` | internal/transform/transform.go:89-140 | a step fails only for an empty path, an obstacle of that kind, or a leaf parent the verb refuses for that reason |
| `Meaning.WrittenExactly` | internal/transform/transform.go:141-145 | what is written for a tree: the same tree with each injected integer as a number of its sign and rounded magnitude, and nothing iff a number is not finite |
| `Meaning.ApplyExactly` | internal/transform/transform.go:74-146 | a call answers a body iff the list is empty and it is the input, or there are bodies between, each what the next op means for it, and it is what is written for the last |
| `Meaning.ApplyFails` | internal/transform/transform.go:74-146 | a call fails only because the body is no object, because the op the bodies lead up to fails on the last of them, or because the last cannot be written |
| `Meaning.CoerceOneField` | internal/transform/transform.go:121-139 | coercing one top-level field of a body yields the body with the converted value there |
| `Meaning.CoerceSpells` | internal/transform/transform.go:158-184 | a truth value becomes its spelling and the spelling the truth value, through a whole call each way |
| `WalkLaws.WalkSucceedsExactly` | internal/transform/walk.go:38-75 | for any verb, a read-mode walk succeeds iff its leaf parents can be listed and the verb accepts each of them; a failure is the listing's or the verb's at one of them |
| `WalkLaws.WalkAgrees` | internal/transform/walk.go:38-75 | two verbs that agree on the leaf parents give the same walk |
| `WalkLaws.WalkBackExactly` | internal/transform/walk.go:38-75 | a second walk restores the object iff its verb undoes the first one's at every leaf parent |
| `WalkLaws.WalkRewritesExactly` | internal/transform/walk.go:38-75 | a successful walk rewrote exactly the leaf parents of its path, each by the verb; every position not on a line with one of them reads as before |
| `WalkLaws.WalkEachRewritesExactly` | internal/transform/walk.go:59-67 | the same for every element of an iterated array |
| `OptionalizeLaws.WalkMonotone` | internal/transform/walk.go:18-75 | a walk that succeeds gives the same tree with any larger optionalize set |
| `OptionalizeLaws.StepMonotone` | internal/transform/transform.go:90-139 | the same for each verb |
| `OptionalizeLaws.RunMonotone` | internal/transform/transform.go:88-140 | inserting optionalize stanzas anywhere in a list never breaks a run and never changes its tree |
| `OptionalizeLaws.ApplyMonotone` | internal/transform/transform.go:74-146 | the same for a whole call on any decoded body, when the list was not empty or the body is an object |
| `OptionalizeLaws.MonotoneExactly` | internal/transform/transform.go:81-87 | monotone on every body iff the original list was non-empty or nothing was inserted |
| `OptionalizeLaws.DocumentedExactly` | docs/protocol.md:146-149 | the walker agrees with the documented coverage on every object iff all suffix verdicts agree with the whole path's |
| `OptionalizeLaws.CoverageLostBelowFirstSegment` | internal/transform/walk.go:48-53 | `optionalize data` does not excuse a missing `data.user` |
| `DefaultLaws.EnsureThenRead` | internal/transform/walk.go:86-125 | after a default, the read-mode walk lists exactly the leaf parents the write-mode walk visited, in the same order, whatever the optionalize set |
| `DefaultLaws.DefaultAgain` | internal/transform/transform.go:112-120 | a second default on the same path changes nothing, even with another value when the first was not null |
| `DefaultLaws.DefaultExtends` | internal/transform/transform.go:112-120 | everything that was present and non-null is still there after a default |
| `DefaultLaws.DefaultFills` | internal/transform/transform.go:113-118 | every visited leaf parent holds the leaf, non-null unless the default is null |
| `DefaultLaws.DefaultIsSafe` | internal/transform/walk.go:78-125 | the safe-writer law in one statement: afterwards a read-mode walk of the path never fails unless its own verb refuses, visits the same leaf parents, finds each filled; a second default changes nothing; nothing non-null is lost |
| `CoerceLaws.CoerceSettles` | internal/transform/transform.go:121-139 | the op succeeds iff its leaf parents can be listed and each holds a coercible leaf, or none when covered; a second one changes nothing anywhere in the body |
| `CoerceLaws.CoerceThereAndBack` | internal/transform/transform.go:121-139 | coercing a path to one type and then to another restores the body iff every coerced leaf survives: it had the second type, and printing and reading it is faithful |
| `FusionLaws.RunConcat` | internal/transform/transform.go:88-140 | a concatenated list runs as its two halves, the second with the first's optionalize set |
| `FusionLaws.RunKeepsClean` | internal/transform/transform.go:40-47 | without integer defaults a run never puts an integer into the tree |
| `FusionLaws.RunBlind` | internal/transform/transform.go:88-140 | a list without coerce cannot tell a tree from its re-encoding |
| `FusionLaws.RunsAlike` | internal/transform/transform.go:88-140 | nor can any list, as long as neither run meets an integer at a leaf it coerces |
| `FusionLaws.MeetingFails` | internal/transform/transform.go:150-160 | a run that meets an integer at a leaf it coerces fails |
| `FusionLaws.FusionExactly` | internal/transform/transform.go:74-146 | where two calls in sequence succeed, one call on the concatenated list gives the same tree iff its second half meets no integer at a leaf it coerces |
| `FusionLaws.Fusion` | internal/transform/transform.go:74-146 | in particular whenever the first list injects no integer or the second coerces nothing |
| `FusionLaws.FusionNeedsTheCondition` | internal/transform/transform.go:153-160 | an integer default followed by a coerce: two calls succeed, the fused one fails |
| `MirrorLaws.Proxy` | internal/server/http.go:348-510 | the request loop, the upstream call and the backward response loop compute the two folds, with 422 for a request-side and 502 for a response-side failure |
| `MirrorLaws.WalkUndone` | internal/transform/walk.go:38-75 | a walk whose verb undoes another's at the sibling leaf undoes the whole walk, through nested arrays |
| `MirrorLaws.SameParentExactly` | internal/bundle/bundle.go:954-965 | the loader's leaf-only test: the two paths share their parent, iteration included, and differ in the leaf name |
| `MirrorLaws.RenameUndone` | internal/bundle/bundle.go:954-965 | a loader-valid rename is undone by its swapped form |
| `MirrorLaws.RunUndone` | internal/transform/transform.go:93-111 | a list of renames is undone by the swapped, reversed list |
| `MirrorLaws.ApplyUndone` | internal/transform/transform.go:74-146 | one link's response side restores the body through encoding and decoding |
| `MirrorLaws.ChainMirror` | internal/server/http.go:504-510 | forward then backward fold over a mirrored chain returns the original body, for every body the request side accepts |
| `MirrorLaws.EchoIsInvisible` | internal/server/http.go:349-356 | over a mirrored chain an echoing upstream answers with the client's own body, or the request was rejected with 422: never a 502 |
| `MirrorLaws.ForwardFuses` | internal/server/http.go:349-356 | the forward fold over a whole chain equals one call on all its request ops, when no default injects an integer |
| `MirrorLaws.ForwardFusesExactly` | internal/server/http.go:349-356 | where the forward fold over a whole chain succeeds, one call on all its request ops gives the same tree iff it meets no integer at a leaf it coerces |
| `FusionLaws.MeetsConcat` | internal/transform/transform.go:88-140 | a run of a concatenated list meets an integer in its first half or, when that succeeds, in its second |
| `PathText.ParsePath` | internal/transform/path.go:31-63 | accepts exactly the texts of well-formed paths, which are the grammatical ones, and returns the path that prints as the text |
| `PathText.PathTextExactly` | internal/transform/path.go:20-61 | the accepted texts, character by character: a dot only between two names or after "[]", a '[' only after a name and before "].", a ']' only after '[' |
| `PathText.PrintReads` | internal/transform/path.go:66-76 | the text of a path: its names, "[]" after an iterating one, dots between |
| `PathText.PathString` | internal/transform/path.go:65-76 | the printing loop yields the dotted text of the path |
| `PathText.Determined` | internal/transform/path.go:31-63 | a path's text splits and parses back into that path's own segments |
| `PathText.PrintInjective` | internal/transform/path.go:65-76 | two well-formed paths with one text are one path |
| `PathText.SplitJoin` | internal/transform/path.go:41-44 | splitting at dots undoes joining dot-free parts |
| `PathText.JoinSplit` | internal/transform/path.go:65-76 | joining undoes splitting |
| `PathCheck.ValidatePathAgainstMessage` | internal/bundle/pathvalidate.go:22-49 | the loader's check equals the recursive verdict and says what is true of the path: a field for each segment in the message of the one before, each fitting, or the first segment that does not and why |
| `PathCheck.FieldForExactly` | internal/bundle/pathvalidate.go:25-34 | a name stands for the first field with that proto name, else the first with that JSON name, else for none |
| `PathCheck.CheckExactly` | internal/bundle/pathvalidate.go:22-49 | each verdict is given iff it is true: accepted iff every segment has a field in the message of the one before, every iterated field is repeated and no map, and before the leaf every repeated one is iterated and every one a message; a refusal at i iff the segments before i fit and i fails in that way |
| `PathCheck.IteratedFieldAccepted` | internal/bundle/pathvalidate.go:36-42 | a field of the elements of a repeated message field, written `items[].sku`, is accepted |
| `PathCheck.ShapeSafeIsSound` | internal/transform/walk.go:38-75 | on a shape-safe path of a conforming body the leaf parents can be listed, or something is absent: never a wrong shape |
| `PathCheck.TrippingTrips` | internal/transform/walk.go:38-75 | for every path that is not shape-safe there is a body in the descriptor's own JSON form on which any walk meets a wrong shape |
| `PathCheck.ShapeSafeExactly` | internal/bundle/pathvalidate.go:22-49 | a path is shape-safe iff no conforming body has a wrong shape on it, with a Struct any object, a ListValue any array and a Value anything |
| `PathCheck.RenameShapeSafeExactly` | internal/transform/transform.go:93-111 | the same for the rename op as the runtime executes it |
| `PathCheck.CoerceShapeSafeExactly` | internal/transform/transform.go:121-139 | the same for the coerce op |
| `PathCheck.RenameFailsOnly` | internal/transform/transform.go:93-111 | a rename along a shape-safe path fails only by absence or a present target |
| `PathCheck.CoerceFailsOnly` | internal/transform/transform.go:121-139 | a coerce along a shape-safe path fails only by absence or a value it cannot convert |
| `PathCheck.AcceptedIsShapeSafe` | internal/bundle/pathvalidate.go:22-49 | a path the loader accepts is shape-safe when proto and JSON names agree, only objects come before the leaf, and below a Struct only the leaf |
| `PathCheck.AcceptedFailsOnlyByAbsence` | internal/bundle/pathvalidate.go:22-49 | path soundness, for any verb: an accepted path walked over a conforming body fails only by absence, or where the verb refuses a leaf parent |
| `PathCheck.AcceptedRename` | internal/bundle/bundle.go:1022-1033 | an accepted rename fails only by absence or a present target |
| `PathCheck.AcceptedCoerce` | internal/bundle/bundle.go:1072-1086 | an accepted coerce fails only by absence or a value it cannot convert |
| `PathCheck.CollidingNamesBreakSoundness` | internal/bundle/pathvalidate.go:25-30 | with colliding names, an accepted path over a conforming body meets a wrong shape |
| `ListSoundness.ClearExactly` | internal/transform/walk.go:38-75 | nothing on a path has a wrong shape iff, whatever the optionalize set, listing its leaf parents fails only by absence |
| `ListSoundness.StepKeepsClear` | internal/transform/transform.go:89-140 | an op that does not write through a path keeps it clear |
| `ListSoundness.StepKeepsClearExactly` | internal/transform/transform.go:89-140 | an op keeps every body on which a path is clear that way iff it does not write through it: a rename whose target, or a non-null default whose leaf, the path steps through, or a default that creates an object where the path iterates an array |
| `ListSoundness.ClearListNeverClashes` | internal/transform/transform.go:88-140 | a list of which no op writes through a later path, on a body on which all its paths are clear, never fails by a wrong shape |
| `ListSoundness.PairExactly` | internal/transform/transform.go:89-140 | for two loader-valid ops, no body on which both paths are clear makes them meet a wrong shape in sequence iff the first does not write through the path of the second |
| `ListSoundness.ListExactly` | internal/transform/transform.go:88-140 | nothing is written through a later path of a list iff no two of its ops, in order, ever clash |
| `ListSoundness.DefaultShapeSafeExactly` | internal/transform/walk.go:86-125 | a default as the runtime executes it never meets a wrong shape on a conforming body iff its path is shape-safe |
| `ListSoundness.SafeListNeverClashes` | internal/transform/transform.go:74-146 | a list whose paths are all shape-safe and none written through before it is walked never meets a wrong shape on a conforming body |
| `ListSoundness.AcceptedListNeverClashes` | internal/bundle/bundle.go:976-1095 | so does a request list whose rename and coerce paths the loader accepted and whose defaults, which it does not check, are shape-safe |
| `ListSoundness.UnsafeDefaultClashes` | internal/bundle/bundle.go:1035-1053 | a request default below a scalar field passes the loader and meets a wrong shape on a conforming body |
| `ListSoundness.WrittenThroughClashes` | internal/transform/transform.go:93-111 | two accepted ops on a conforming body of which the first writes through the path of the second: the call meets a wrong shape |
| `Rules.OverlapExactly` | internal/bundle/bundle.go:454-458 | two selector rules overlap iff some request matches both |
| `Rules.FindCompeting` | internal/bundle/bundle.go:405-419 | finds whether an existing rule is ambiguous with a new one |
| `Rules.LoadResolution` | internal/bundle/bundle.go:373-423 | refuses exactly the files whose entries do not all parse to pairwise compatible rules, and groups the others by version in order |
| `Rules.AtMostOneMatch` | internal/bundle/bundle.go:405-419 | in an accepted file at most one selector rule of a version matches any request |
| `Rules.AcceptableAnyOrder` | internal/bundle/bundle.go:405-419 | acceptance depends on the collection of rules, not on their order |
| `Chains.ResolveChain` | internal/bundle/bundle.go:698-734 | one contract's walk ends in a chain, or in a walk that repeats a version, names an unknown version or an unbound (route, method) |
| `Chains.ResolveChains` | internal/bundle/bundle.go:698-734 | succeeds iff no contract's walk is stuck, and then stores every contract's chain |
| `Chains.ChainOrStuck` | internal/bundle/bundle.go:698-734 | no contract has both a chain and a stuck walk, and none has two chains |
| `Chains.ChainIsLongest` | internal/bundle/bundle.go:698-734 | every walk from a contract is a prefix of its chain |
| `Chains.ChainShape` | internal/bundle/bundle.go:698-734 | a chain has distinct versions, one (route, method), canonical contracts after its head, a backend target only at its end, and a tail that is its second contract's chain |
| `Loading.BuildIndex` | internal/bundle/bundle.go:577-578 | the index maps each version to its contracts in load order, and to nothing else |
| `Loading.CheckKeys` | internal/bundle/bundle.go:538-552 | accepts iff no (version, route, method) is declared twice |
| `Loading.CheckVersions` | internal/bundle/bundle.go:582-587 | accepts iff every rule names a declared version, whatever the map order |
| `Loading.Materialize` | internal/bundle/bundle.go:592-612 | the loop yields the canonical contract under the version-only rules and the selector variants in order; what they carry is `Serving.AnswerReads` |
| `Loading.Assemble` | internal/bundle/bundle.go:592-612 | every contract and variant is materialised and exactly those are handed to chain resolution |
| `Loading.Load` | internal/bundle/bundle.go:530-619 | succeeds iff the entries parse to acceptable rules, no binding is declared twice, every rule names a declared version and no walk is stuck (`Serving.LoadableExactly` says so of the entries), and then yields the bundle of the parsed rules |
| `Loading.LoadedIsNotStuck` | internal/bundle/bundle.go:614-616 | a loaded bundle has no stuck walk |
| `Loading.DerivedByOneRule` | internal/bundle/bundle.go:592-612 | whatever the loader derives is the declared contract, or that contract under one single rule |
| `Loading.LoadedChainShape` | internal/bundle/bundle.go:589-619 | every chain of a loaded bundle has the full chain shape, its later links are the bundle's own contracts and its tail is stored as theirs |
| `Lookups.Lookup` | internal/bundle/bundle.go:242-263 | the scan returns what `Find` says, which on a loaded bundle is the answer `FindIsAnswer` describes: the declared contract under the one matching selector rule, else under its version-only rule, else as declared |
| `Lookups.LookupRoute` | internal/bundle/bundle.go:216-223 | the scan returns the first contract bound to the route and method |
| `Lookups.FindIsAnswer` | internal/bundle/bundle.go:242-263 | on a loaded bundle a lookup returns the declared contract under the one matching selector rule, else under its version-only rule, else as declared |
| `Lookups.AnswerUnique` | internal/bundle/bundle.go:242-263 | that answer is unique |
| `Lookups.LookupAnyOrder` | internal/bundle/bundle.go:242-263 | bundles loaded from the same rules in any two orders answer every request alike |
| `Lookups.RouteGateExactly` | internal/bundle/bundle.go:216-223 | the route gate opens iff some version's lookup hits |
| `Serving.TrimSpaceExactly` | internal/bundle/bundle.go:392-395 | trimming a text gives what is left without the white space around it |
| `Serving.ReadableExactly` | internal/bundle/bundle.go:391-420 | an entry parses iff it names a version, no axis it sets is blank or no text, and it has exactly one of a shim and a backend that is not blank |
| `Serving.AmbiguousExactly` | internal/bundle/bundle.go:400-412 | two entries are refused together iff they name one version and are both fallbacks, or both selective and some request satisfies both |
| `Serving.AcceptableFileExactly` | internal/bundle/bundle.go:373-420 | the file is accepted iff every entry is readable and no two are ambiguous |
| `Serving.LoadableExactly` | internal/bundle/bundle.go:468-616 | a bundle loads iff the file is acceptable, no binding is declared twice, every version an entry names is declared and no walk is stuck |
| `Serving.AnswerReads` | internal/bundle/bundle.go:624-648 | a lookup on a loaded bundle hits exactly the declared bindings; the contract carries the request list, the response list and the trimmed target of the entry that governs the request (the one whose axes it satisfies, else the fallback), or its trimmed backend, and nothing when there is none |
| `Serving.ChainReads` | internal/bundle/bundle.go:698-734 | its chain starts there and goes on with the same route and method in the version each link points to, under that version's fallback entry, to a link that points nowhere |
| `Serving.ProxiedReads` | internal/server/http.go:348-510 | the two folds over a chain: bodies each what the link's request list means for the one before, the upstream call, bodies each what the link's response list means for the one after; 422 at the first link that cannot ask, 502 at the last that cannot answer |
| `Serving.Serve` | internal/server/http.go:257-510 | one request from the entries as written to the reply: answered iff the binding is declared, with the reply of the chain the entries give it and the backend its last link names |
| `Order.SortedKeys` | internal/bundlegen/drift.go:531-538 | the sorted keys of a map, each once, whatever order the map yields them in |
| `Order.SortedUnique` | internal/bundlegen/drift.go:531-538 | a strictly sorted listing is determined by its members |
| `Order.LessExactly` | internal/bundlegen/bundlegen.go:965-970 | the order is the lexicographic one: one text ends, or holds the smaller character, where they first differ |
| `Names.SanitizeIdent` | internal/bundlegen/bundlegen.go:1197-1206 | always a legal proto identifier, and the name itself when that was legal |
| `Names.SanitizeExactly` | internal/bundlegen/bundlegen.go:1197-1211 | the identifier character by character: illegal ones replaced, an underscore before a leading digit or in the place of nothing |
| `Names.Itoa` | internal/bundlegen/bundlegen.go:1213-1221 | decimal text is non-empty and all digits |
| `Names.ItoaValue` | internal/bundlegen/bundlegen.go:1213-1221 | reading a decimal text back gives the number, so suffixes are pairwise distinct |
| `Names.ItoaExactly` | internal/bundlegen/bundlegen.go:1213-1225 | the decimal text is the only digits with that value and no leading zero |
| `Names.CandidatesDistinct` | internal/bundlegen/bundlegen.go:1213-1221 | no two tries produce the same identifier |
| `Names.CandidateReads` | internal/bundlegen/bundlegen.go:1213-1225 | the names tried are the base, base_2, ... base_10 |
| `Names.TriesBounded` | internal/bundlegen/bundlegen.go:1213-1221 | by pigeonhole a free candidate is reached within used + 1 tries |
| `Names.Scope.UniqueIdent` | internal/bundlegen/bundlegen.go:1213-1221 | terminates, returns the first free candidate, legal and unused, and records exactly it |
| `Names.SanitizeMessageNames` | internal/bundlegen/bundlegen.go:1227-1234 | one legal identifier per name, one-to-one, each the first candidate free in its turn, and the identity when all names are legal |
| `Names.KeepsSpellingExactly` | internal/bundlegen/bundlegen.go:1227-1234 | a legal name keeps its spelling iff no earlier name was given it |
| `Names.LegalNameDisplaced` | internal/bundlegen/bundlegen.go:1227-1234 | a legal name can lose its own spelling to an illegal neighbour that sorts first |
| `Schemas.NullableAnyOf` | internal/bundlegen/bundlegen.go:926-943 | the inner schema is a member of the union, and a reference or a scalar |
| `Schemas.ClosedContainsReachable` | internal/bundlegen/bundlegen.go:661-723 | a set closed under references that holds the roots holds everything reachable |
| `Schemas.Collector.Visit` | internal/bundlegen/bundlegen.go:687-716 | a visit that succeeds leaves everything newly visited reachable, good and explored; one that fails names a reachable bad component |
| `Schemas.Collector.VisitProperties` | internal/bundlegen/bundlegen.go:707-714 | the same for the properties of a message, taken in any order |
| `Schemas.CollectSchemas` | internal/bundlegen/bundlegen.go:661-723 | succeeds iff no reachable component is undefined or unsupported, and then returns exactly the reachable message components |
| `Schemas.RefNameExactly` | internal/bundlegen/bundlegen.go:646-648 | a reference names what follows its last slash, or the whole of it when there is none |
| `Schemas.WalkTargetExactly` | internal/bundlegen/bundlegen.go:670-695 | what collection follows: the schema's own reference, else that of its array items or dict values, else the one beside the null marker |
| `Schemas.NullableExactly` | internal/bundlegen/bundlegen.go:926-964 | the nullable idiom is exactly two members, one the null marker and the other a reference or a scalar |
| `Schemas.RejectExactly` | internal/bundlegen/bundlegen.go:725-747 | refused are exactly allOf, and, outside a union, other keys than the declared ones in a form no field has |
| `Lowering.LoweringEndsExactly` | internal/bundlegen/bundlegen.go:1000-1117 | the source's recursion, cut off after a number of calls, comes back for some number iff the chain of inlined components never returns to one of them; its value is then BuildField's |
| `Lowering.CycleNeverComesBack` | internal/bundlegen/bundlegen.go:1031-1037 | a component that inlines itself does not come back within any number of calls |
| `Lowering.DocumentEndsExactly` | internal/bundlegen/bundlegen.go:1000-1117 | every lowering in a document ends iff no component inlines itself |
| `Lowering.CollectedEnds` | internal/bundlegen/bundlegen.go:1000-1117 | where every schema has one form, lowering a collected property ends if no collected component inlines itself |
| `Lowering.ArrayRefsExactly` | internal/bundlegen/bundlegen.go:1060-1100 | the references of array items are built iff the items end well: a plain reference collection followed, or an alias that leads to a message at once |
| `Lowering.MapRefsExactly` | internal/bundlegen/bundlegen.go:1124-1188 | the same for a map value |
| `Lowering.LoweredRefsExactly` | internal/bundlegen/bundlegen.go:1000-1117 | for any schema of a collected document, every message its lowered field refers to is built iff its inline chain ends well: decided by the schema at the end of the chain and by whether collection followed it there |
| `Lowering.LoweredRefsCollected` | internal/bundlegen/bundlegen.go:1000-1117 | where every schema has one form and no alias leads to anything but a message, every reference is built |
| `Descriptors.BuildMessage` | internal/bundlegen/bundlegen.go:965-998 | fields in key order, numbered from 1, legal distinct names, the keys themselves when all are legal, JSON name the key, each lowered from its own property; fails iff some property does not lower; which values its fields accept is `FieldForms.FieldTakes` and `FieldForms.FieldGives` |
| `Descriptors.PartitionEmpty` | internal/bundlegen/bundlegen.go:634-644 | the roots that are components, in order, and whether the synthetic message is among them |
| `Descriptors.ReferencesResolve` | internal/bundlegen/bundlegen.go:330-333 | descriptor validation of references: every type name is the name of a message in the set |
| `Descriptors.ReferencesExactly` | internal/bundlegen/bundlegen.go:330-333 | references resolve iff the properties they were lowered from end well |
| `Descriptors.BuildDescriptors` | internal/bundlegen/bundlegen.go:259-339 | as far as references go, succeeds iff nothing reachable is undefined or unsupported, every root is an object, and every property of every collected message lowers to a field whose chain ends well; then one message per reachable object component (and the synthetic one) under distinct legal names, every reference naming the one message of its component |
| `Descriptors.PathReferenceBuilds` | internal/bundlegen/bundlegen.go:646-695 | a reference written with any path reaches the component it ends in, and the document builds |
| `Descriptors.ItemReferenceBuilds` | internal/bundlegen/bundlegen.go:646-695 | in particular one written "#/components/schemas/Item" |
| `Descriptors.KeptExactly` | internal/bundlegen/bundlegen.go:634-644 | the synthetic message is the root named "Empty", and every other root is a component |
| `FieldForms.FieldTakes` | internal/bundlegen/bundlegen.go:1000-1117 | a lowered field accepts every value its schema describes, keyword by keyword: scalars within the width their format gives them, arrays, dicts, references, nullable members and unions |
| `FieldForms.FieldGives` | internal/bundlegen/bundlegen.go:1000-1117 | where each schema uses one keyword and no union, it accepts nothing else |
| `FieldForms.CarriesExactly` | internal/bundlegen/bundlegen.go:725-748 | the messages built for a document of plain objects accept everything their components describe iff none of these takes keys it does not declare |
| `FieldForms.MessageExactly` | internal/bundlegen/bundlegen.go:259-339 | in a strict document the message built for a component accepts a value iff the component describes it, through every nested message |
| `FieldForms.BuiltDescribes` | internal/bundlegen/bundlegen.go:259-339 | a built set of which no field refers to the synthetic message meets the premise of these |
| `FieldForms.OptionalExactly` | internal/bundlegen/bundlegen.go:1005-1010 | a scalar field tracks its presence iff its schema admits null, by `nullable` or by a null member, here or in the component it inlines |
| `FieldForms.ScalarForms` | internal/bundlegen/bundlegen.go:1043-1166 | the proto type of each scalar by type and format, on its own, as a map value and under items, with its label and presence |
| `FieldForms.ReferenceForms` | internal/bundlegen/bundlegen.go:1030-1150 | the same for a reference to a message, nullable or not |
| `FieldForms.OpenForms` | internal/bundlegen/bundlegen.go:807-836 | objects without declared properties and tagged unions are Structs, untagged unions and the schema without keywords Values, on their own and under items |
| `FieldForms.AnyOfForms` | internal/bundlegen/bundlegen.go:759-782 | a union by anyOf has these forms too, unless it is the nullable idiom |
| `FieldForms.EmptyExactly` | internal/bundlegen/bundlegen.go:622-628 | the empty schema is the one without any keyword, or with nothing but an empty set of properties |
| `FieldForms.RefusedForms` | internal/bundlegen/bundlegen.go:1060-1117 | arrays without items, arrays of arrays, dicts of arrays and objects with properties of their own have no field |
| `Descriptors.DisciplinedResolves` | internal/bundlegen/bundlegen.go:259-339 | where every schema has one form, aliases lead to messages and no collected component inlines itself, lowering ends on every property and every reference resolves |
| `Descriptors.TwoFormsDangle` | internal/bundlegen/bundlegen.go:1000-1041 | a whole document that collects and lowers, whose property has a reference beside a nullable union and emits a reference to no message |
| `Descriptors.AliasUnderItemsDangles` | internal/bundlegen/bundlegen.go:1060-1100 | the same for array items that refer to an alias of a scalar |
| `Descriptors.AliasAsMapValueDangles` | internal/bundlegen/bundlegen.go:1124-1150 | the same for a map value |
| `Descriptors.AliasAsPropertyBuilds` | internal/bundlegen/bundlegen.go:1031-1037 | the same alias as a plain property builds |
| `Descriptors.NullableSelfDiverges` | internal/bundlegen/bundlegen.go:1000-1010 | a whole document that collects and on which lowering never comes back: a component that is its own nullable form |
| `Matching.FirstUnused` | internal/bundlegen/drift.go:420-435 | the first unused added field with the key, and none only when there is no such field or the empty name has the key |
| `Matching.MatchByKey` | internal/bundlegen/drift.go:466-508 | a one-to-one partition of both lists in order, pairing equal keys; per key exactly min(removed, added) pairs, or none when the empty added name has that key |
| `Matching.SaturatedIsMaximum` | internal/bundlegen/drift.go:409-452 | no one-to-one matching along keys has more pairs, unless a removed field has the key of an added empty name |
| `Matching.MaximumExactly` | internal/bundlegen/drift.go:409-452 | a pass is a maximum iff no removed field has the key of an added empty name |
| `Matching.NothingLeftToPair` | internal/bundlegen/drift.go:409-452 | unless the empty name hides it, a removed field a pass leaves over has the key of no added field left over |
| `Drift.EmptyNameBeatsPass` | internal/bundlegen/drift.go:420-435 | a new version with a property named "": whatever the ambiguous pass returns pairs nothing, although a pair is there |
| `Drift.MatchCaseRenames` | internal/bundlegen/drift.go:466-508 | the case pass is such a matching on (normalised name, primitive type) |
| `Drift.MatchAmbiguousPairs` | internal/bundlegen/drift.go:409-452 | the ambiguous pass is such a matching on the primitive type alone |
| `Drift.NormalizeExactly` | internal/bundlegen/drift.go:514-518 | the normalised name is the lower-cased one without its underscores and hyphens |
| `Drift.TokenExactly` | internal/bundlegen/drift.go:551-573 | two scalar schemas have one token iff they lower to one proto type, and nothing else has a token |
| `Drift.PairsCompare` | internal/bundlegen/drift.go:307-397 | every drafted rename goes from a removed to an added field of the same normalised name and scalar type; every candidate agrees in the type |
| `Drift.LeftoversDiffer` | internal/bundlegen/drift.go:307-397 | without a property named "", nothing is left over that a pass could have paired |
| `Drift.Absentees` | internal/bundlegen/drift.go:316-327 | the sorted names one shape has and the other lacks, exactly |
| `Drift.FindTypeChanges` | internal/bundlegen/drift.go:367-386 | the sorted names present in both whose primitive types differ, exactly |
| `Drift.TypeChangedExactly` | internal/bundlegen/drift.go:367-386 | a type change is a field in both whose scalar proto types differ |
| `Drift.ZeroForms` | internal/bundlegen/drift.go:575-595 | the zero of a property by its type |
| `Drift.ZeroHasItsType` | internal/bundlegen/drift.go:575-595 | written out, it is a value of that type |
| `Drift.DraftDirection` | internal/bundlegen/drift.go:307-397 | a draft is renames, then defaults, then coerces, from the two passes in turn, each one-to-one with the exact number of pairs per key; notes are the removed fields no pass used |
| `Drift.DraftedCoerceLoadsExactly` | internal/bundle/bundle.go:1072-1086 | on either side of a contract whose message describes its shape, a drafted coerce is accepted by the loader, descriptor check included, iff the new type is `string` |
| `Drift.PlainIsDescribed` | internal/bundle/pathvalidate.go:22-49 | a one-segment path passes the descriptor check when the message has a field for that property |
| `DriftLaws.BuiltDescribes` | internal/bundlegen/bundlegen.go:965-998 | the message the generator builds for a schema has a field for each of its properties |
| `DriftLaws.CompleteIsPlan` | internal/bundlegen/drift.go:307-397 | a draft with no candidate, note or coerce renames or keeps every old field and renames to or defaults every new one, one-to-one |
| `DriftLaws.RenamesRun` | internal/transform/transform.go:93-111 | the drafted renames in sequence never collide and move every value to its new name |
| `DriftLaws.DefaultsRun` | internal/transform/transform.go:112-120 | the drafted defaults fill exactly the missing new fields |
| `DriftLaws.PlanWorks` | internal/bundlegen/drift.go:307-397 | the ops of a complete draft succeed on every body with exactly the old fields and yield exactly the new fields: kept ones with their values, renamed ones with the old field's value, defaulted ones with the zero value |
| `DriftLaws.DraftedShimWorks` | internal/bundlegen/drift.go:307-397 | drafted shims work: the stanzas of any draft without candidates, notes or coerces load, descriptor check included, and the loaded ops reshape every old body into a new one without failing, carrying out every stanza |
| `Lifecycle.InsertInto` | internal/bundlegen/bundlegen.go:397-426 | a new layer directory appears in its sorted place |
| `Lifecycle.BundleDir.AddLayer` | internal/bundlegen/bundlegen.go:397-426 | Add's conditions and its whole new state, in listing order and by the set of layers |
| `Lifecycle.BundleDir.RetireLayer` | internal/bundlegen/bundlegen.go:1293-1362 | Retire's conditions, and the override to the next newer layer |
| `Lifecycle.BundleDir.RemoveLayer` | internal/bundlegen/bundlegen.go:432-452 | Remove takes the oldest of at least two layers and nothing else |
| `Lifecycle.NextDoes` | internal/bundlegen/bundlegen.go:397-452 | each command by the set of layers: Add puts one in, Remove takes the oldest of at least two, Retire redirects a layer that is not the newest to the next newer, when each succeeds, and a failure changes nothing |
| `Lifecycle.RunSound` | internal/bundlegen/bundlegen.go:397-452 | over every run: layers stay sorted, a non-empty bundle is never emptied, overrides point to strictly newer versions |
| `Lifecycle.NewestKept` | internal/bundlegen/bundlegen.go:432-452 | no command removes the newest layer |
| `Lifecycle.StepKeepsTargetsExactly` | internal/bundlegen/bundlegen.go:397-452 | a command keeps the targets of present sources present iff it is not an Add that brings back a layer whose left-behind override has no target |
| `Lifecycle.RunKeepsTargetsExactly` | internal/bundlegen/bundlegen.go:1293-1362 | over every run targets stay present iff no command is such an Add |
| `Lifecycle.RunKeepsTargets` | internal/bundlegen/bundlegen.go:1293-1362 | in particular over every run that re-adds nothing removed |
| `Lifecycle.ForwardWalkEnds` | internal/bundle/bundle.go:698-734 | along such overrides every walk ends inside the bundle |
| `Lifecycle.ForwardNeverCycles` | internal/bundle/bundle.go:698-734 | on contracts with strictly newer targets no walk repeats a version, so no cycle is ever reported |
| `LifecycleLoads.OverridesLoadExactly` | internal/bundle/bundle.go:582-616 | the loader accepts forward overrides iff every source is a layer and every contract of it continues, for its own route and method, in the target layer |
| `LifecycleLoads.LoadsExactly` | internal/bundle/bundle.go:582-616 | after any run from a bundle without overrides, over layers that serve the same routes, the loader accepts iff every override has its source and its target among the layers |
| `LifecycleLoads.LoadsUnlessRemoved` | internal/bundlegen/bundlegen.go:432-452 | if the run revives nothing, iff every source is a layer; if it re-adds nothing, iff no retired version has been removed |
| `Lifecycle.ReaddedDangles` | internal/bundlegen/bundlegen.go:432-452 | re-adding a removed version can revive an override whose target is gone |
| `Exporter.SpanExporter.Enqueue` | internal/tracing/exporter.go:186-191 | never blocks: a full queue drops the span and counts it |
| `Exporter.SpanExporter.CloseStop` | internal/tracing/exporter.go:171-182 | Shutdown closes the stop channel, once |
| `Exporter.SpanExporter.WorkerStep` | internal/tracing/exporter.go:193-210 | every move of the worker, the deferred close included, is an enabled step of the transition relation; it blocks exactly when done, or waiting on an empty queue before stop |
| `Exporter.RunOrdered` | internal/tracing/exporter.go:186-210 | in every interleaving accepted = exported, then in flight, then queued, in acceptance order |
| `Exporter.Conservation` | internal/tracing/exporter.go:82-88 | ended = exported + in flight + queued + dropped, with at most 1024 queued |
| `Exporter.DropsExactly` | internal/tracing/exporter.go:32-34 | a run drops a span iff it ends one while 1024 are queued |
| `Exporter.ExportedAtMostOnce` | internal/tracing/exporter.go:82-88 | no span is exported twice when none is ended twice |
| `Exporter.FoundEmptyIsDrained` | internal/tracing/exporter.go:199-207 | when the drain finds the queue empty, everything accepted so far has been exported; what is accepted later stays queued for ever |
| `Exporter.ClosedDrainedExactly` | internal/tracing/exporter.go:193-210 | when the done channel is about to close, everything accepted has been exported iff no span was ended since the queue was found empty |
| `Exporter.QuietShutdownDrains` | internal/tracing/exporter.go:169-182 | in particular when no span is ended after stop |
| `Exporter.SpanLostAtClose` | internal/tracing/exporter.go:193-210 | a run in which a span is accepted before the deferred close and never exported |
| `Exporter.ShutdownDrains` | internal/tracing/exporter.go:171-210 | after stop and without new spans the worker is done within a bounded number of its own moves, never stuck before |
| `Boundary.Tracker.ConnState` | internal/server/stdlib_boundary.go:81-124 | the callback's branches as one step on the entry map and the total |
| `Boundary.Tracker.MarkHandlerSeen` | internal/server/stdlib_boundary.go:153-164 | the middleware marks the connection's current entry, if any |
| `Boundary.EntryExtends` | internal/server/stdlib_boundary.go:81-124 | one more event keeps entries and handler marks equal to what the history says |
| `Boundary.TotalExtends` | internal/server/stdlib_boundary.go:102-123 | one more event adds to the total iff it closes a round no handler saw |
| `Boundary.TrackerIsFaithful` | internal/server/stdlib_boundary.go:81-164 | for every event sequence the map holds exactly the connections with an active event and no later close or hijack, and the total is the number of unserved closes |

## Left out

- Bytes: JSON, YAML and protobuf encoding are not modelled; a body is the tree it decodes to, and
  decoding after encoding is the identity on decoded trees. Duplicate keys and key order are gone.
- Number formatting, parsing and integer rounding are three arbitrary functions (`Numerics`); every
  result holds whatever they are.
- HTTP handling, the adapter, header forwarding, metrics, logging, configuration, the CLI and file
  access: plumbing around the modelled core.
- Wire errors: the failure reasons keep the branch that failed, not its wording.
- Error-response ops and the relay of upstream error statuses in the proxy.
- The status label of a boundary count (`sniffingConn.Write`, `parseStatusLine`): it is taken from
  the first non-empty write on the connection; only counts are proved.
- `Store.Represents`: arrays are values that hold references, so two slices sharing one backing array
  are not expressible; the runtime never creates them.
- `Chains.ResolveChains`: contracts are values and chains a map from contract to chain, where the
  source stores a slice in each contract; equal contracts have equal chains.
- `Loading.Load`: stanza parsing (`toOps`), message lookup, layer parsing and package collisions
  are taken as done; a rule's shim is its op lists. Which of several failures is reported is not said.
- `PathCheck.ShapeSafeExactly`: well-known types outside struct.proto (Timestamp, wrappers, Any), which
  the generator never emits.
- `FieldForms.FieldTakes`: a message accepts its JSON names and canonical values; protojson also takes
  proto names, numbers in quotes and spelled infinities, and the adapter writes no body at all for a
  message without fields. Integers without a format have 32 bits, as they are lowered, and an object
  with declared properties describes no others. A null property stands for an absent one; null elements
  of nullable items are not described.
- `FieldForms.FieldGives`: a union lowers to a Value or a Struct, which accept more than its members.
- `Meaning.ApplyFails`: which of several failures comes first is not said beyond the op it comes from.
- `Serving.Serve`: the request's selectors and version are given trimmed, and the upstream call is a
  function of backend and body; a status other than success does not occur.
- In-flight isolation across a bundle reload: message descriptors are re-read from the live bundle
  (internal/server/server.go:117-123), so it does not hold as one would hope.
- `Schemas.CollectSchemas`: null schema pointers inside a document.
- `Descriptors.BuildDescriptors`: map-entry type names and nested types, file options, and what
  descriptor validation checks besides references, such as two fields whose JSON names conflict. Where the source's recursion does not come back,
  the method reports a failure.
- `Drift.MatchCaseRenames`: `strings.ToLower` is a parameter.
- `Lifecycle.BundleDir.AddLayer`: Add's failures from reading, checking or building the document come
  before the layer is written and are not part of the step.
- `ListSoundness.AcceptedListNeverClashes`: exact per op, per default and per pair of ops; that a pair
  which clashes on some body also does inside its list, on a conforming body, is not claimed.
- `Lifecycle.BundleDir.RetireLayer`: only the version-to-target map of the resolution file; its other
  fields, which Retire rewrites without, are not modelled.
- `LifecycleLoads.OverridesLoadExactly`: a layer's contracts are given; that a layer declares its own
  directory's version is what Add writes, not what the loader checks.
- `Exporter.Conservation`: span attributes, sampling and the HTTP export itself; an export that fails
  still counts as handed over, as in the source. The deadline of Shutdown's context is the caller's.
