/** Decoded JSON values, with the equality Python gives them. */
module Json {
  import opened Wrappers

  datatype Value =
    | Null
    | Bool(b: bool)
    | Int(n: int)
    | Float(x: real)
    | Str(s: string)
    | Arr(items: seq<Value>)
    | Obj(fields: map<string, Value>)

  /** `payload.get(key)` on an object; a missing key reads as None. */
  function Get(v: Value, key: string): Value {
    if v.Obj? && key in v.fields then v.fields[key] else Null
  }

  predicate IsNumber(v: Value) {
    v.Bool? || v.Int? || v.Float?
  }

  function NumberOf(v: Value): real
    requires IsNumber(v)
  {
    match v
    case Bool(b) => if b then 1.0 else 0.0
    case Int(n) => n as real
    case Float(x) => x
  }

  /** `==` on decoded values: True equals 1 and 2 equals 2.0, also inside lists and objects. */
  predicate PyEq(a: Value, b: Value)
    decreases a
  {
    match a
    case Arr(items) =>
      b.Arr? && |items| == |b.items| && forall i :: 0 <= i < |items| ==> PyEq(items[i], b.items[i])
    case Obj(fields) =>
      b.Obj? && fields.Keys == b.fields.Keys && forall k :: k in fields ==> PyEq(fields[k], b.fields[k])
    case _ => if IsNumber(a) then IsNumber(b) && NumberOf(a) == NumberOf(b) else a == b
  }

  lemma {:induction false} PyEqReflexive(v: Value)
    ensures PyEq(v, v)
    decreases v
  {
    match v
    case Arr(items) =>
      forall i | 0 <= i < |items| ensures PyEq(items[i], items[i]) {
        PyEqReflexive(items[i]);
      }
    case Obj(fields) =>
      forall k | k in fields ensures PyEq(fields[k], fields[k]) {
        PyEqReflexive(fields[k]);
      }
    case _ =>
  }

  /** Equality with a string is identity. */
  lemma PyEqString(v: Value, s: string)
    ensures PyEq(v, Str(s)) <==> v == Str(s)
  {
  }

  /** A printer and a parser of JSON text. */
  datatype Codec = Codec(dumps: Value -> string, loads: string -> Option<Value>)

  /** The printed value is read back as it was. */
  ghost predicate ReadsBack(codec: Codec, v: Value) {
    codec.loads(codec.dumps(v)) == Some(v)
  }
}
