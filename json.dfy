/** The values json.loads produces, and the Python operations the pipeline
    applies to them: truthiness, dict.get and type names for error texts. */
module Json {
  import opened Wrappers

  /** A decoded JSON document: JSON integers and fractions become Python
      int and float, objects become dicts (one value per key). */
  datatype Value =
    | JNull
    | JBool(b: bool)
    | JInt(i: int)
    | JFloat(f: real)
    | JString(s: string)
    | JArray(items: seq<Value>)
    | JObject(fields: map<string, Value>)

  /** json.loads: the decoded value, or the text of the JSONDecodeError. */
  type Parser = string -> Result<Value, string>

  /** Python truthiness (`if not x`). */
  predicate Truthy(v: Value)
    // the falsy values are exactly None, False, 0, 0.0 and the empty str, list and dict
    ensures !Truthy(v) <==> v in {JNull, JBool(false), JInt(0), JFloat(0.0), JString(""), JArray([]), JObject(map[])}
  {
    match v
    case JNull => false
    case JBool(b) => b
    case JInt(i) => i != 0
    case JFloat(f) => f != 0.0
    case JString(s) => s != ""
    case JArray(items) => items != []
    case JObject(fields) => fields != map[]
  }

  /** dict.get(key, default). */
  function Get(fields: map<string, Value>, key: string, default: Value): (v: Value)
    ensures key in fields ==> v == fields[key]
    ensures key !in fields ==> v == default
  {
    if key in fields then fields[key] else default
  }

  /** The Python type name that appears in TypeError and AttributeError texts. */
  function TypeName(v: Value): string {
    match v
    case JNull => "NoneType"
    case JBool(_) => "bool"
    case JInt(_) => "int"
    case JFloat(_) => "float"
    case JString(_) => "str"
    case JArray(_) => "list"
    case JObject(_) => "dict"
  }

  /** The text of the AttributeError raised by `v.attr` on a value lacking it. */
  function NoAttribute(v: Value, attr: string): string {
    "'" + TypeName(v) + "' object has no attribute '" + attr + "'"
  }
}
