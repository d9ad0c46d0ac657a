/** The request and response vocabulary of the quiz server: JSON field values
    as the handlers read them, token claims, and the reply a handler sends. */
module Http {

  import opened Base
  import Text

  const ADMIN: string := "admin"
  const STUDENT: string := "student"

  /** The payload a signed session token carries: `{ userId, role }`. */
  datatype Claims = Claims(userId: Id, role: string)

  /** One express-validator error: which field failed and its message. */
  datatype FieldError = FieldError(field: string, msg: string)

  /** What a handler sends back. `AlreadyTaken` is the one error body with an
      extra field (the existing result's id); `Invalid` is the `{ errors: [...] }`
      body of the validation middleware. */
  datatype Reply<+T> =
    | Ok(status: nat, body: T)
    | Fail(status: nat, error: string)
    | AlreadyTaken(resultId: Id)
    | Invalid(errors: seq<FieldError>)
  {
    /** The HTTP status code of the reply. */
    function Code(): nat {
      match this
      case Ok(s, _) => s
      case Fail(s, _) => s
      case AlreadyTaken(_) => 400
      case Invalid(_) => 400
    }
  }

  /** A JSON body field that the handlers treat as a number: absent
      (undefined), a JSON number, or a JSON string. Fractional numbers,
      booleans and null are not modelled. */
  datatype Scalar = Absent | Num(n: int) | Str(s: string)

  /** JavaScript truthiness of a numeric field: `0`, `""` and undefined are falsy. */
  predicate Truthy(v: Scalar) {
    match v
    case Absent => false
    case Num(n) => n != 0
    case Str(s) => s != ""
  }

  /** JavaScript truthiness of a text field: undefined and `""` are falsy. */
  predicate Filled(f: Option<string>) {
    f.Some? && f.value != ""
  }

  /** `parseInt(v)`; None stands for NaN. */
  function ParseIntField(v: Scalar): (r: Option<int>)
    ensures v.Num? ==> r == Some(v.n)
    ensures v.Absent? ==> r.None?
  {
    match v
    case Absent => None
    case Num(n) => Some(n)
    case Str(s) => Text.ParseInt(s)
  }
}
