/** The C containers return NULL for "no value" (an empty container, a position out of
    range, a missing key). The model returns an Option instead. */
module Wrappers {

  datatype Option<+T> = None | Some(value: T)

  /** The value a C caller would see through an optional callback: `f(x)` when the callback
      was supplied, `x` itself when the caller passed NULL. */
  function Apply<T>(f: Option<T -> T>, x: T): T
  {
    match f
    case Some(g) => g(x)
    case None => x
  }
}
