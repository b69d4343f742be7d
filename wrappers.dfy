/** Option, Result and Outcome: the success/failure shapes of the Go code's
    `(value, error)` and `error` returns. */
module Wrappers {

  datatype Option<+T> = None | Some(value: T)

  datatype Result<+T, +E> = Success(value: T) | Failure(error: E)

  /** A Go function that returns only an `error`: nil is Pass. */
  datatype Outcome<+E> = Pass | Fail(error: E)

  /** No element of `s` occurs twice. */
  predicate Distinct<T(==)>(s: seq<T>) {
    forall i, j :: 0 <= i < j < |s| ==> s[i] != s[j]
  }
}
