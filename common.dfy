/** Values shared by the request handlers: optional values, HTTP replies and JavaScript truthiness. */
module Common {

  datatype Option<T> = None | Some(value: T) {
    /** The value, or `default` when absent (a destructuring default such as `page = 1`). */
    function GetOr(default: T): T {
      match this
      case Some(v) => v
      case None => default
    }
  }

  /** What a handler answers: a success status with its JSON payload, an error status with the
      `message` field of its JSON body, or an error that reaches Express's default error handler,
      which answers with the status and an HTML page instead of JSON (the stack trace in
      development, "Internal Server Error" in production), so there is no `message` to give. */
  datatype Reply<T> =
    | Ok(status: int, value: T)
    | Fail(status: int, message: string)
    | ErrorPage(status: int)

  const NotAuthorized := "Not authorized"
  const ServerError := "Server error"

  /** A request-body string as JavaScript's `if (x)` and `x || y` judge it: present and non-empty. */
  predicate Truthy(s: Option<string>) {
    s.Some? && s.value != ""
  }

  /** The database's regular-expression engine, which is not part of this model: whether a
      pattern compiles, and whether it matches a text case-insensitively (`$options: 'i'`). */
  datatype Regex = Regex(valid: string -> bool, test: (string, string) -> bool)
}
