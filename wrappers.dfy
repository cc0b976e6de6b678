/** The optional value a failed pattern search yields (Python's `None`). */
module Wrappers {

  datatype Option<+T> = None | Some(value: T)

  /** The list of appends that an optional value contributes: nothing or one element. */
  function ToSeq<T>(o: Option<T>): seq<T> {
    match o
    case None => []
    case Some(v) => [v]
  }
}
