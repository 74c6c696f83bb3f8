/** Values shared by every part of the model: optional values, the error
    kinds the handlers report, and a result type carrying one of them. */
module Common {

  datatype Option<+T> = None | Some(value: T)

  /** The kinds of failure a handler can end with. The HTTP status chosen
      for each kind by the response helper is not part of the model. */
  datatype ErrorKind =
    | BadRequest    // a required request field is missing or refers to nothing
    | Unauthorized  // no identity, a wrong password or an insufficient role
    | NotFound      // an id that does not resolve
    | Validation    // a model validator rejected a field (a list of field messages)
    | Unexpected    // anything else: hook errors, constraint violations, 500 mappings

  datatype Result<+T> = Ok(value: T) | Err(kind: ErrorKind)

  function Min(a: int, b: int): int { if a <= b then a else b }

  function Abs(n: int): nat { if n < 0 then -n else n }

  /** JavaScript truthiness of an optional integer: absent and 0 are falsy. */
  predicate Truthy(n: Option<int>) { n.Some? && n.value != 0 }
}
