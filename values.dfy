/** The JavaScript values the commands read out of API responses, and the
    two JavaScript operations they apply to them: truthiness and `===`. */
module Values {
  import opened Wrappers

  /** A JSON scalar as the JavaScript client sees it; `Undefined` is what a
      missing property reads as. Numbers are kept as reals. */
  datatype Value = Undefined | Null | Bool(b: bool) | Num(n: real) | Str(s: string)

  /** A decoded JSON object whose properties are scalars. */
  type Record = map<string, Value>

  /** `obj[key]`: a property that is not there reads as `undefined`. */
  function Property(obj: Record, key: string): Value
  {
    if key in obj then obj[key] else Undefined
  }

  /** JavaScript truthiness (`NaN` is not modelled). */
  predicate Truthy(v: Value)
  {
    match v
    case Undefined => false
    case Null => false
    case Bool(b) => b
    case Num(n) => n != 0.0
    case Str(s) => s != ""
  }

  /** A `string | null` as a Value. */
  function FromNullable(x: Option<string>): Value
  {
    match x
    case None => Null
    case Some(s) => Str(s)
  }
}
