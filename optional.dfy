/** A value that may be absent: the outcome of a pattern match or a lookup that can fail. */
module Optional {

  datatype Option<+T> = None | Some(value: T)

  /** The present value as a one-element sequence, or the empty sequence. */
  function ToSeq<T>(o: Option<T>): (s: seq<T>)
    ensures |s| <= 1
  {
    match o
    case None => []
    case Some(v) => [v]
  }
}
