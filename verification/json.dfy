/**
 The parsed reply, as an abstract JSON value. Parsing itself (`JSON.parse`) is
 not modelled; only the value it produces and the JavaScript property reads
 and truthiness tests the application applies to it.
 */
module Json {

  datatype Option<T> = None | Some(value: T)

  /** A value `JSON.parse` can produce. A number may be any real, though
      only doubles arise; NaN and infinities cannot come out of JSON. Object
      key order is not kept. */
  datatype JValue =
    | JNull
    | JBool(b: bool)
    | JNum(n: real)
    | JStr(s: string)
    | JArr(items: seq<JValue>)
    | JObj(fields: map<string, JValue>)

  /** `v[key]` on a non-null value: the field of an object, `undefined`
      (`None`) for a missing field and for a non-object. The non-object case
      holds for the keys the program reads (`passage`, `questions`,
      `blankNumber`, `options`, `A` to `D`, `correctAnswer`), none of which
      is a property of a string, array, number or boolean; it would not hold
      for a key such as `length`. */
  function Get(v: JValue, key: string): (r: Option<JValue>)
    ensures r.Some? <==> v.JObj? && key in v.fields
    ensures r.Some? ==> r.value == v.fields[key]
  {
    match v
    case JObj(m) => if key in m then Some(m[key]) else None
    case _ => None
  }

  /** JavaScript truthiness of a property read (`undefined` is falsy). */
  predicate Truthy(v: Option<JValue>) {
    match v
    case None => false
    case Some(JNull) => false
    case Some(JBool(b)) => b
    case Some(JNum(n)) => n != 0.0
    case Some(JStr(s)) => s != []
    case Some(JArr(_)) => true
    case Some(JObj(_)) => true
  }

  /** `Array.isArray` of a property read. */
  predicate IsArray(v: Option<JValue>) {
    v.Some? && v.value.JArr?
  }
}
