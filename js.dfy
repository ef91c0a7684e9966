/** JavaScript values and outcomes shared by the models of the build scripts.

    Only what the scripts observe is kept: numbers are integers (plus the
    NaN tag), objects are string-keyed maps, and an exception is a value
    carrying the constructor it was raised with and its message. */
module Js {

  datatype Option<+T> = None | Some(value: T)

  /** The two exception constructors the scripts raise. */
  datatype JsError = TypeError(message: string) | Error(message: string)

  /** A call that either returns a value or throws. */
  datatype Result<+T> = Ok(value: T) | Throw(error: JsError)

  /** A JavaScript value, restricted to what the scripts pass around. */
  datatype JsValue =
    | Undefined
    | Null
    | Bool(b: bool)
    | Int(i: int)
    | NaN
    | Str(s: string)
    | Array(elems: seq<JsValue>)
    | Object(fields: map<string, JsValue>)

  /** The argument a regular-expression capture is passed as: the captured
      text, or `undefined` when the group did not take part in the match. */
  function CaptureValue(c: Option<string>): (v: JsValue)
    ensures v.Str? <==> c.Some?
    ensures c.Some? ==> v.s == c.value
  {
    match c
    case Some(s) => Str(s)
    case None => Undefined
  }
}
