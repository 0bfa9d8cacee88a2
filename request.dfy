/** Values a handler reads from a request: a JSON body field or a query
    parameter that may be absent, and the Python truthiness tests the
    handlers apply to them before touching the store. */
module Request {

  datatype Option<+T> = None | Some(value: T)

  /** `data.get(k) or ""`: an absent field reads as the empty string. */
  function OrEmpty(field: Option<string>): string
  {
    if field.Some? then field.value else ""
  }

  /** `not v` is false for a text field: it is present and non-empty. */
  predicate HasText(field: Option<string>)
  {
    field.Some? && field.value != ""
  }

  /** `not v` is false for a numeric field: it is present and non-zero. */
  predicate HasId(field: Option<int>)
  {
    field.Some? && field.value != 0
  }

  /** `bool(data.get(k, 0))` for a JSON boolean. */
  function OrFalse(field: Option<bool>): bool
  {
    field.Some? && field.value
  }
}
