/** JSON values as serde_json holds them with preserved object order. */
module Json {
  import opened Prelude
  import opened OrderedPairs

  /** A double is kept by its printed token; `value` is the number it denotes. */
  datatype Number = Integer(n: int) | Float(token: string, value: real)

  datatype Value =
    | Null
    | Bool(b: bool)
    | Num(n: Number)
    | Str(s: string)
    | Array(items: seq<Value>)
    | Object(fields: Fields)

  type Fields = Pairs<Value>

  /** `Value::get(&str)`: only objects have fields. */
  function Field(v: Value, k: string): Option<Value> {
    if v.Object? then Get(v.fields, k) else None
  }

  /** The map type's own invariant, at every depth: no object repeats a key. */
  ghost predicate DistinctDeep(v: Value) {
    match v
    case Array(items) => forall i :: 0 <= i < |items| ==> DistinctDeep(items[i])
    case Object(fields) => Distinct(fields) && forall i :: 0 <= i < |fields| ==> DistinctDeep(fields[i].1)
    case _ => true
  }

  /** Nested field lookup along a path of any length. */
  function AtPath(v: Value, path: seq<string>): Option<Value>
    decreases |path|
  {
    if path == [] then Some(v)
    else
      var child := Field(v, path[0]);
      if child.None? then None else AtPath(child.value, path[1..])
  }

  lemma {:induction false} FieldDistinctDeep(v: Value, k: string)
    requires DistinctDeep(v)
    ensures Field(v, k).Some? ==> DistinctDeep(Field(v, k).value)
  {
    if Field(v, k).Some? {
      GetIsHasKey(v.fields, k);
      var i := FirstAt(v.fields, k);
      GetAt(v.fields, i);
    }
  }
}
