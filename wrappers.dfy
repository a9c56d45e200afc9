/** A value that may be absent: Python's `None`, a missing key, a failed lookup. */
module Wrappers {
  datatype Option<T> = None | Some(value: T)

  /** `x or ""` for a text that may be `None`. */
  function OrEmpty(s: Option<string>): string
  {
    match s
    case None => ""
    case Some(t) => t
  }
}
