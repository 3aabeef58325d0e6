/** The loosely-typed document that encoding/json builds when it decodes
    into `interface{}` / `map[string]interface{}`. */
module Json {
  import opened Wrappers

  /** A Go float64, kept as its IEEE-754 bit pattern. The model never does
      arithmetic on it: parsing and formatting are parameters. */
  datatype Float64 = Float64(bits: bv64)

  /** The zero value of a float64 field (+0.0, all bits clear). */
  const Zero: Float64 := Float64(0)

  /** One decoded JSON value: nil, bool, float64, string, []interface{}
      or map[string]interface{}. A number out of float64 range decodes
      to nil (JNull), and the rest of the document is still decoded. */
  datatype Json =
    | JNull
    | JBool(b: bool)
    | JNum(n: Float64)
    | JStr(s: string)
    | JArr(items: seq<Json>)
    | JObj(fields: map<string, Json>)

  type Object = map<string, Json>

  /** `m[key]` on a Go map: a missing key reads as nil. */
  function Get(m: Object, key: string): Json
  {
    if key in m then m[key] else JNull
  }

  /** `m[key].(string)` succeeds. */
  predicate HasString(m: Object, key: string)
  {
    key in m && m[key].JStr?
  }

  /** `if s, ok := m[key].(string); ok { field = s }` on a zero-valued field. */
  function StringOr(m: Object, key: string): (s: string)
    ensures HasString(m, key) ==> s == m[key].s
    ensures !HasString(m, key) ==> s == ""
  {
    match Get(m, key)
    case JStr(v) => v
    case _ => ""
  }

  /** `json.Unmarshal(body, &result)` with its error ignored: only a
      well-formed JSON object fills the map; bytes that are not JSON (None) and any
      other top-level value leave it nil, and a nil map reads as empty. */
  function TopLevel(doc: Option<Json>): (m: Object)
    ensures doc.Some? && doc.value.JObj? ==> m == doc.value.fields
    ensures !(doc.Some? && doc.value.JObj?) ==> m == map[]
  {
    match doc
    case Some(JObj(fields)) => fields
    case _ => map[]
  }
}
