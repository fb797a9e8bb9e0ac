/** The JSON values the config document can hold once `JSON.parse` has run.
    Numbers keep their literal text: the model never computes with them. */
module Json {

  datatype Value =
    | Null
    | Bool(b: bool)
    | Number(literal: string)
    | Str(s: string)
    | Arr(items: seq<Value>)
    | Obj(fields: map<string, Value>)
}
