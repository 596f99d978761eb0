/**
 * The values `json.loads` produces and `json.dumps` consumes, with the
 * truthiness Python gives each of them.
 */
module Json {

  import opened Wrappers

  /**
   * A JSON value.  A number is kept as the decimal `mantissa * 10^exponent`
   * it was written as, which is enough to tell zero from non-zero; objects
   * are maps from key to value.
   */
  datatype Json =
    | JNull
    | JBool(b: bool)
    | JNumber(mantissa: int, exponent: int)
    | JString(s: string)
    | JArray(items: seq<Json>)
    | JObject(fields: map<string, Json>)

  /**
   * Python's `bool(v)`: `None`, `False`, zero, the empty string, the empty
   * list and the empty dict are false; everything else is true.
   */
  predicate Truthy(v: Json)
  {
    match v
    case JNull => false
    case JBool(b) => b
    case JNumber(m, _) => m != 0
    case JString(s) => s != []
    case JArray(a) => a != []
    case JObject(f) => f != map[]
  }

  /** Python's `None` for an absent value, the string itself otherwise. */
  function FromOption(o: Option<string>): (v: Json)
    ensures v == JNull <==> o.None?
    ensures o.Some? ==> v == JString(o.value)
  {
    match o
    case None => JNull
    case Some(s) => JString(s)
  }
}
