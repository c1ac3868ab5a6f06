/** The JavaScript values that reach the site's untyped helpers (`hasStatus` takes
    `unknown`, `isEmpty` takes `any`, a thrown error is any value). Objects are
    represented by their own enumerable properties; prototype chains and object
    identity are not part of the model. */
module Js {
  import opened Wrappers
  import JsString

  datatype JsValue =
    | Undefined
    | Null
    | Bool(b: bool)
    | Num(n: real)
    | Str(s: string)
    | Arr(items: seq<JsValue>)
    | Obj(props: map<string, JsValue>)
    | Func

  /** `v == null` (loose equality): true of `null` and `undefined` only. */
  predicate IsNullish(v: JsValue) {
    v.Undefined? || v.Null?
  }

  /** The `typeof` operator. `typeof null` is "object". */
  function TypeOf(v: JsValue): string {
    match v
    case Undefined => "undefined"
    case Null => "object"
    case Bool(_) => "boolean"
    case Num(_) => "number"
    case Str(_) => "string"
    case Arr(_) => "object"
    case Obj(_) => "object"
    case Func => "function"
  }

  /** `key in v` for a value whose `typeof` is "object" and that is not null;
      an array has its indices and `length` as own properties. */
  predicate HasProperty(v: JsValue, key: string)
    requires v.Arr? || v.Obj?
  {
    match v
    case Obj(props) => key in props
    case Arr(items) => key == "length" || exists k: nat :: k < |items| && JsString.NatToString(k) == key
  }

  /** `v.key`: `None` when `v` is `null` or `undefined` (a TypeError is thrown),
      otherwise the property's value, `undefined` when there is none. */
  function GetProperty(v: JsValue, key: string): (r: Option<JsValue>)
    ensures r.None? <==> IsNullish(v)
    ensures v.Obj? && key !in v.props ==> r == Some(Undefined)
  {
    match v
    case Undefined => None
    case Null => None
    case Obj(props) => Some(if key in props then props[key] else Undefined)
    case _ => Some(Undefined)
  }
}
