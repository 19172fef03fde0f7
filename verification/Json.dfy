/** JSON values. */
module Json {
  import opened Text

  datatype Json =
    | Null
    | Bool(b: bool)
    | Num(n: real)
    | Str(s: string)
    | Arr(items: seq<Json>)
    | Obj(fields: map<string, Json>)

  /** `Value::get(name)`: a field of an object, nothing of any other value. */
  function Get(v: Json, name: string): Option<Json> {
    if v.Obj? && name in v.fields then Some(v.fields[name]) else None
  }

  /** `v.get(name).and_then(|f| f.as_str())`. */
  function GetStr(v: Json, name: string): Option<string> {
    match Get(v, name)
    case Some(Str(s)) => Some(s)
    case _ => None
  }
}
