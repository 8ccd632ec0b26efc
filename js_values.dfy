/**
 * The JavaScript values a converter may be called with, the `typeof`
 * operator, and the outcome of a call: a returned string or the message of
 * the `Error` it throws.
 */
module JsValues {

  datatype JsValue =
    | Undefined
    | Null
    | Boolean(b: bool)
    | Number(n: real)
    | BigInt(i: int)
    | Str(s: string)
    | Symbol
    | Object
    | Function

  /** The `typeof` operator: `"string"` exactly for strings, `"object"` for `null`. */
  function TypeOf(v: JsValue): (t: string)
    ensures t == "string" <==> v.Str?
    ensures v.Null? ==> t == "object"
  {
    match v
    case Undefined => "undefined"
    case Null => "object"
    case Boolean(_) => "boolean"
    case Number(_) => "number"
    case BigInt(_) => "bigint"
    case Str(_) => "string"
    case Symbol => "symbol"
    case Object => "object"
    case Function => "function"
  }

  datatype Outcome =
    | Returned(value: string)
    | Thrown(message: string)

  /** The message of the `Error` a converter throws for a value that is not a string. */
  function InvalidInput(v: JsValue): string {
    "Invalid input: expected a string, but received " + TypeOf(v)
  }

  /** The messages for the non-string arguments a converter is called with. */
  lemma InvalidInputMessages()
    ensures InvalidInput(Number(123.0)) == "Invalid input: expected a string, but received number"
    ensures InvalidInput(Undefined) == "Invalid input: expected a string, but received undefined"
    ensures InvalidInput(Null) == "Invalid input: expected a string, but received object"
  {
  }
}
