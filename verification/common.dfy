/** Values shared by every part of the model: optional values, exceptions
    and the outcome of one call of an operation that may raise. */
module Common {

  /** Python's `None` or a present value. */
  datatype Option<+T> = None | Some(value: T)

  /** A raised exception, identified by the name of its class. */
  datatype Exn = Exn(kind: string)

  /** What one call of an operation did: it returned a value or it raised. */
  datatype Outcome<+T> = Ok(value: T) | Raise(exn: Exn)

  /** Python truthiness of an optional string: `None` and `""` are falsy. */
  predicate Truthy(s: Option<string>) {
    s.Some? && s.value != ""
  }

  /** The `a or b` idiom on optional strings, with a string default. */
  function OrElse(s: Option<string>, default: string): string {
    if Truthy(s) then s.value else default
  }
}
