/** The document model: a JSON value as `encoding/json` produces it from a
    Kubernetes object, already parsed. Numbers are integers only. */
module Document {

  datatype Json =
    | Null
    | Bool(b: bool)
    | Int(n: int)
    | Str(s: string)
    | Arr(items: seq<Json>)
    | Obj(fields: map<string, Json>)

  /** Errors of the conversions between typed objects and documents. */
  datatype Error =
    | MarshalError(reason: string)   // json.Marshal rejected the object
    | UnmarshalTypeError             // a document value does not fit the field it is decoded into

  /** The members of a document, or none when it is not an object. */
  function Members(j: Json): map<string, Json> {
    if j.Obj? then j.fields else map[]
  }

  /** The value of member `k`, with an absent member read as `Null`: for the
      merge-patch algorithms an undefined member and a non-object behave alike. */
  function Lookup(m: map<string, Json>, k: string): Json {
    if k in m then m[k] else Null
  }

  /** No object reachable through objects has a member whose value is `null`.
      Arrays are not looked into: a merge patch carries them verbatim. */
  predicate NoNullMembers(j: Json) {
    match j
    case Obj(m) => forall k :: k in m ==> !m[k].Null? && NoNullMembers(m[k])
    case _ => true
  }

  /** The empty object `{}`. */
  const Empty: Json := Obj(map[])
}
