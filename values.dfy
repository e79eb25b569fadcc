/**
 * The JavaScript values the builder's methods receive. A number carries the text it prints as
 * and stays distinct from a string, because some methods accept strings but not numbers;
 * arrays only ever hold strings here.
 */
module JsValues {
  import opened Strings

  datatype Value = Undefined | Bool(b: bool) | Num(digits: string) | Text(s: string) | List(items: seq<string>)

  /** A plain options object: its own keys and their values. */
  type JsObject = map<string, Value>

  /** `obj[key]`, which is `undefined` for a key the object does not have. */
  function Get(o: JsObject, key: string): Value
  {
    if key in o then o[key] else Undefined
  }

  /** `!isUndefined(v)`. */
  predicate IsDefined(v: Value)
  {
    !v.Undefined?
  }

  /** The text `"" + v` gives: an array prints as its elements joined with commas. */
  function AsText(v: Value): string
  {
    match v
    case Undefined => "undefined"
    case Bool(b) => if b then "true" else "false"
    case Num(digits) => digits
    case Text(s) => s
    case List(items) => Join(items, ",")
  }

  /**
   * The argument shapes the methods dispatch on: omitted, a string, a plain object
   * (of shape `T`), or anything else (a number, a boolean, `null`).
   */
  datatype Arg<T> = Missing | Str(s: string) | Obj(o: T) | Other

  /** `fq`'s argument: an array of filter objects, one filter object, or anything else. */
  datatype FilterArg = FilterList(filters: seq<JsObject>) | FilterObject(filter: JsObject) | NotAnObject
}
