/**
 The transform runtime (internal/transform): paths, the read-mode and write-mode walkers, the four
 verbs and the op-list interpreter, as functions on decoded trees. Module InPlace runs the same
 interpreter on a mutable store and is proved equal to it.
 */
module Transform {
  import opened Json

  datatype Segment = Segment(name: string, isArray: bool)
  type Path = seq<Segment>

  // Why a transform failed; the wire error carries the direction's status beside it.
  datatype Failure =
    | NotAnObject        // the body is not a JSON object
    | EmptyPath
    | Absent             // a missing or null intermediate, or a missing leaf
    | WrongShape         // a value is there but is not the object or array the path needs
    | TargetPresent      // rename would overwrite
    | NotCoercible
    | NotEncodable       // a NaN or an infinity reached the encoder

  datatype Result<+T> = Ok(value: T) | Fail(reason: Failure) {
    predicate IsFailure() { Fail? }
    function PropagateFailure<U>(): Result<U> requires Fail? { Fail(reason) }
    function Extract(): T requires Ok? { value }
  }

  datatype Op =
    | Rename(from: Path, to: Path)
    | Default(field: Path, value: Json)
    | Optionalize(field: Path)
    | Coerce(field: Path, target: string)

  // What a verb does to one leaf: the parent object and the leaf name.
  type LeafFn = (Fields, string) -> Result<Fields>

  // `bundle.toOps` never builds a rename without a target leaf, nor a default that is not a scalar.
  predicate WellFormed(op: Op) {
    match op
    case Rename(_, to) => |to| > 0
    case Default(_, v) => Scalar(v)
    case _ => true
  }

  predicate AllWellFormed(ops: seq<Op>) {
    forall i | 0 <= i < |ops| :: WellFormed(ops[i])
  }

  // The leaf-only rule of the loader: one parent path, two leaf names.
  predicate SameParentDifferentLeaf(p: Path, q: Path) {
    && |p| == |q| > 0
    && p[..|p| - 1] == q[..|q| - 1]
    && p[|p| - 1].name != q[|q| - 1].name
  }

  predicate HasPrefixByName(p: Path, prefix: Path) {
    |prefix| <= |p| && forall i | 0 <= i < |prefix| :: prefix[i].name == p[i].name
  }

  predicate Covers(opts: seq<Path>, p: Path) {
    exists i :: 0 <= i < |opts| && HasPrefixByName(p, opts[i])
  }

  // --- walkers ---

  predicate Missing(obj: Fields, name: string) {
    name !in obj || obj[name].Null?
  }

  function Walk(obj: Fields, p: Path, opts: seq<Path>, f: LeafFn): Result<Fields>
    decreases |p|, 0
  {
    if |p| == 0 then Fail(EmptyPath)
    else if |p| == 1 then f(obj, p[0].name)
    else
      var name := p[0].name;
      if Missing(obj, name) then
        if Covers(opts, p) then Ok(obj) else Fail(Absent)
      else if p[0].isArray then
        if !obj[name].Arr? then Fail(WrongShape)
        else
          var elems :- WalkEach(obj[name].elems, p[1..], opts, f);
          Ok(obj[name := Arr(elems)])
      else if !obj[name].Obj? then Fail(WrongShape)
      else
        var sub :- Walk(obj[name].fields, p[1..], opts, f);
        Ok(obj[name := Obj(sub)])
  }

  function WalkEach(elems: seq<Json>, p: Path, opts: seq<Path>, f: LeafFn): (r: Result<seq<Json>>)
    ensures r.Ok? ==> |r.value| == |elems|
    decreases |p|, 1 + |elems|
  {
    if elems == [] then Ok([])
    else if !elems[0].Obj? then Fail(WrongShape)
    else
      var head :- Walk(elems[0].fields, p, opts, f);
      var tail :- WalkEach(elems[1..], p, opts, f);
      Ok([Obj(head)] + tail)
  }

  function WalkEnsure(obj: Fields, p: Path, f: LeafFn): Result<Fields>
    decreases |p|, 0
  {
    if |p| == 0 then Fail(EmptyPath)
    else if |p| == 1 then f(obj, p[0].name)
    else
      var name := p[0].name;
      if p[0].isArray then
        if Missing(obj, name) then Fail(Absent)
        else if !obj[name].Arr? then Fail(WrongShape)
        else
          var elems :- WalkEnsureEach(obj[name].elems, p[1..], f);
          Ok(obj[name := Arr(elems)])
      else if Missing(obj, name) then
        var sub :- WalkEnsure(map[], p[1..], f);
        Ok(obj[name := Obj(sub)])
      else if !obj[name].Obj? then Fail(WrongShape)
      else
        var sub :- WalkEnsure(obj[name].fields, p[1..], f);
        Ok(obj[name := Obj(sub)])
  }

  function WalkEnsureEach(elems: seq<Json>, p: Path, f: LeafFn): (r: Result<seq<Json>>)
    ensures r.Ok? ==> |r.value| == |elems|
    decreases |p|, 1 + |elems|
  {
    if elems == [] then Ok([])
    else if !elems[0].Obj? then Fail(WrongShape)
    else
      var head :- WalkEnsure(elems[0].fields, p, f);
      var tail :- WalkEnsureEach(elems[1..], p, f);
      Ok([Obj(head)] + tail)
  }

  // --- verbs ---

  function CoerceValue(lib: Numerics, v: Json, target: string): Result<Json> {
    if target == "string" then
      match v
      case Str(_) => Ok(v)
      case Number(x) => Ok(Str(lib.format(x)))
      case Bool(b) => Ok(Str(if b then "true" else "false"))
      case _ => Fail(NotCoercible)
    else if target == "number" then
      match v
      case Number(_) => Ok(v)
      case Str(s) => (match lib.parse(s) case Some(x) => Ok(Number(x)) case None => Fail(NotCoercible))
      case _ => Fail(NotCoercible)
    else if target == "bool" then
      match v
      case Bool(_) => Ok(v)
      case Str(s) => if s == "true" then Ok(Bool(true)) else if s == "false" then Ok(Bool(false))
          else Fail(NotCoercible)
      case _ => Fail(NotCoercible)
    else Fail(NotCoercible)
  }

  // `covered` is the optionalize verdict on the op's whole path.
  function RenameLeaf(toLeaf: string, covered: bool): LeafFn {
    (parent: Fields, leaf: string) =>
      if leaf !in parent then
        if covered then Ok(parent) else Fail(Absent)
      else if toLeaf in parent then Fail(TargetPresent)
      else Ok((parent - {leaf})[toLeaf := parent[leaf]])
  }

  function DefaultLeaf(value: Json): LeafFn {
    (parent: Fields, leaf: string) =>
      if Missing(parent, leaf) then Ok(parent[leaf := value]) else Ok(parent)
  }

  function CoerceLeaf(lib: Numerics, target: string, covered: bool): LeafFn {
    (parent: Fields, leaf: string) =>
      if leaf !in parent then
        if covered then Ok(parent) else Fail(Absent)
      else
        match CoerceValue(lib, parent[leaf], target)
        case Ok(v) => Ok(parent[leaf := v])
        case Fail(e) => Fail(e)
  }

  function Step(lib: Numerics, op: Op, opts: seq<Path>, obj: Fields): Result<Fields>
    requires WellFormed(op)
  {
    match op
    case Optionalize(_) => Ok(obj)
    case Rename(from, to) => Walk(obj, from, opts, RenameLeaf(to[|to| - 1].name, Covers(opts, from)))
    case Default(field, v) => WalkEnsure(obj, field, DefaultLeaf(v))
    case Coerce(field, target) => Walk(obj, field, opts, CoerceLeaf(lib, target, Covers(opts, field)))
  }

  function Tolerated(op: Op): seq<Path> {
    if op.Optionalize? then [op.field] else []
  }

  function Run(lib: Numerics, ops: seq<Op>, opts: seq<Path>, obj: Fields): Result<Fields>
    requires AllWellFormed(ops)
    decreases |ops|
  {
    if ops == [] then Ok(obj)
    else
      var next :- Step(lib, ops[0], opts, obj);
      Run(lib, ops[1..], opts + Tolerated(ops[0]), next)
  }

  // One call of `apply`, on the tree its body bytes decode to.
  function Apply(lib: Numerics, ops: seq<Op>, body: Json): Result<Json>
    requires AllWellFormed(ops)
  {
    if ops == [] then Ok(body)
    else if !body.Obj? then Fail(NotAnObject)
    else
      var out :- Run(lib, ops, [], body.fields);
      if Encodable(Obj(out)) then Ok(Reencode(lib, Obj(out))) else Fail(NotEncodable)
  }
}
