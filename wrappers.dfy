/** Optional values and results with an error, used for Python's `None` and raised exceptions. */
module Wrappers {

  datatype Option<+T> = None | Some(value: T)

  datatype Result<+T, +E> = Ok(value: T) | Err(error: E)

  /** Python's `x or ''` for an optional string: a missing or empty value becomes `''`. */
  function OrEmpty(o: Option<string>): (r: string)
    ensures o.None? ==> r == ""
    ensures o.Some? ==> r == o.value
  {
    if o.Some? then o.value else ""
  }
}
