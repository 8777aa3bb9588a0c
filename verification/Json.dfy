/**
 Decoded JSON trees as the transform runtime holds them in memory.

 A decoded number is always a float64; a `default` stanza may inject a Go integer instead. The two
 kinds stay apart until the tree is marshalled, when the integer becomes an ordinary number.
 */
module Json {
  datatype Option<+T> = None | Some(value: T)

  // A float64: marshalling accepts only the finite ones.
  datatype Float = Finite(negative: bool, magnitude: real) | Infinite(negative: bool) | NaN

  datatype Json =
    | Null
    | Bool(b: bool)
    | Number(x: Float)
    | Integer(n: int)
    | Str(s: string)
    | Arr(elems: seq<Json>)
    | Obj(fields: Fields)

  type Fields = map<string, Json>

  // The library conversions the runtime calls: FormatFloat, ParseFloat, and the rounding that
  // reading an integer literal back as a float64 performs.
  datatype Numerics = Numerics(format: Float -> string, parse: string -> Option<Float>, round: nat -> real)
  {
    function OfInt(n: int): Float {
      Finite(n < 0, round(if n < 0 then -n else n))
    }
  }

  predicate Scalar(j: Json) {
    j.Null? || j.Bool? || j.Number? || j.Integer? || j.Str?
  }

  // Marshalling succeeds exactly on the trees whose numbers are all finite.
  predicate Encodable(j: Json) {
    match j
    case Number(x) => x.Finite?
    case Arr(es) => forall i | 0 <= i < |es| :: Encodable(es[i])
    case Obj(m) => forall k | k in m :: Encodable(m[k])
    case _ => true
  }

  // No injected integer anywhere.
  predicate IntegerFree(j: Json) {
    match j
    case Integer(_) => false
    case Arr(es) => forall i | 0 <= i < |es| :: IntegerFree(es[i])
    case Obj(m) => forall k | k in m :: IntegerFree(m[k])
    case _ => true
  }

  // What unmarshalling can return.
  predicate Decoded(j: Json) {
    Encodable(j) && IntegerFree(j)
  }

  // Unmarshal after Marshal: integers come back as floats, all else is unchanged.
  function Reencode(lib: Numerics, j: Json): Json
    decreases j
  {
    match j
    case Integer(n) => Number(lib.OfInt(n))
    case Arr(es) => Arr(ReencodeAll(lib, es))
    case Obj(m) => Obj(map k | k in m :: Reencode(lib, m[k]))
    case _ => j
  }

  function ReencodeAll(lib: Numerics, es: seq<Json>): (r: seq<Json>)
    ensures |r| == |es|
    ensures forall i :: 0 <= i < |es| ==> r[i] == Reencode(lib, es[i])
    decreases es
  {
    if es == [] then [] else [Reencode(lib, es[0])] + ReencodeAll(lib, es[1..])
  }

  function ReencodeFields(lib: Numerics, m: Fields): Fields {
    Reencode(lib, Obj(m)).fields
  }

  lemma {:induction false} ReencodeIsDecoded(lib: Numerics, j: Json)
    requires Encodable(j)
    ensures Decoded(Reencode(lib, j))
    decreases j
  {
    match j
    case Arr(es) =>
      forall i | 0 <= i < |es| ensures Decoded(Reencode(lib, es[i])) { ReencodeIsDecoded(lib, es[i]); }
    case Obj(m) =>
      forall k | k in m ensures Decoded(Reencode(lib, m[k])) { ReencodeIsDecoded(lib, m[k]); }
    case _ =>
  }

  // Only integers change on the way through the encoder.
  lemma {:induction false} ReencodeIdentity(lib: Numerics, j: Json)
    requires IntegerFree(j)
    ensures Reencode(lib, j) == j
    decreases j
  {
    match j
    case Arr(es) =>
      forall i | 0 <= i < |es| ensures Reencode(lib, es[i]) == es[i] { ReencodeIdentity(lib, es[i]); }
      assert ReencodeAll(lib, es) == es;
    case Obj(m) =>
      forall k | k in m ensures Reencode(lib, m[k]) == m[k] { ReencodeIdentity(lib, m[k]); }
      assert ReencodeFields(lib, m) == m;
    case _ =>
  }
}
