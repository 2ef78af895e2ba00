/** JSON values as `serde_json::Value` presents them. Key order inside objects is not modelled. */
module JsonValues {
  import opened Prelude

  datatype Number = PosInt(n: nat) | NegInt(i: int) | Float(x: real)

  type Fields = map<string, Json>

  datatype Json =
    | Null
    | Bool(b: bool)
    | Num(n: Number)
    | Str(s: string)
    | Arr(items: seq<Json>)
    | Obj(fields: Fields)

  /** `value.get(key)`: absent on anything that is not an object. */
  function Get(j: Json, key: string): Option<Json> {
    if j.Obj? && key in j.fields then Some(j.fields[key]) else None
  }

  function GetStr(j: Json, key: string): Option<string> {
    match Get(j, key)
    case Some(Str(s)) => Some(s)
    case _ => None
  }

  function GetU64(j: Json, key: string): Option<nat> {
    match Get(j, key)
    case Some(Num(PosInt(n))) => Some(n)
    case _ => None
  }

  /** The fields of the object stored under `key`, if it is one. */
  function GetObj(j: Json, key: string): Option<Fields> {
    match Get(j, key)
    case Some(Obj(f)) => Some(f)
    case _ => None
  }

  predicate Has(j: Json, key: string) {
    Get(j, key).Some?
  }

  function Put(j: Json, key: string, v: Json): Json
    requires j.Obj?
  {
    Obj(j.fields[key := v])
  }
}
