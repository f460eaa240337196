/** Optional values and error results shared by every module of the model. */
module Results {

  /** A value that may be absent; `None` plays the part of JavaScript's `null`. */
  datatype Option<+T> = None | Some(value: T)

  /** The outcome of an operation that can fail with an error of type `E`. */
  datatype Result<+T, +E> = Success(value: T) | Failure(error: E)

  /** The elements of an option as a sequence of length zero or one. */
  function ToSeq<T>(o: Option<T>): (s: seq<T>)
    ensures |s| <= 1
    ensures o.Some? <==> |s| == 1
    ensures o.Some? ==> s[0] == o.value
  {
    match o
    case None => []
    case Some(v) => [v]
  }
}
