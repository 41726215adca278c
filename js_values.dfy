/**
 * The slice of JavaScript's value semantics that the archive's services rely on:
 * parsed JSON values, `undefined`, truthiness, `typeof x === 'object'`, and
 * evaluations that may throw a TypeError.
 */
module JsValues {
  import opened Wrappers

  /** A value produced by `JSON.parse`. Objects map keys to values (a later duplicate key wins). */
  datatype Json =
    | JNull
    | JBool(b: bool)
    | JNumber(n: real)
    | JString(s: string)
    | JArray(items: seq<Json>)
    | JObject(fields: map<string, Json>)

  /** The outcome of evaluating a JavaScript expression: a value, or a thrown TypeError. */
  datatype Eval<+T> = Value(v: T) | Thrown

  /** Property read `o.key` on an object; `None` stands for `undefined`. */
  function Get(fields: map<string, Json>, key: string): Option<Json> {
    if key in fields then Some(fields[key]) else None
  }

  /** Property read `x.key` on any value other than null or undefined (which throw). */
  function Member(x: Json, key: string): Option<Json>
    requires !x.JNull?
  {
    match x
    case JObject(fields) => Get(fields, key)
    case _ => None
  }

  /** `typeof x === 'object'`: true for null, arrays and objects. */
  predicate TypeofObject(x: Option<Json>) {
    x.Some? && (x.value.JNull? || x.value.JArray? || x.value.JObject?)
  }

  /** `typeof x === 'string'` */
  predicate IsString(x: Option<Json>) {
    x.Some? && x.value.JString?
  }

  /** `typeof x === 'number'` */
  predicate IsNumber(x: Option<Json>) {
    x.Some? && x.value.JNumber?
  }

  /** JavaScript truthiness of a JSON value or `undefined` (JSON has no NaN). */
  predicate Truthy(x: Option<Json>) {
    match x
    case None => false
    case Some(JNull) => false
    case Some(JBool(b)) => b
    case Some(JNumber(n)) => n != 0.0
    case Some(JString(s)) => s != ""
    case Some(_) => true
  }
}
