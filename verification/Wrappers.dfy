/** Result and Option types used by the extractor. */
module Wrappers {

  /** Either a value of type T or an error of type E. */
  datatype Result<+T, +E> = Success(value: T) | Failure(error: E) {

    /** Forgets the reason of a failure, as a caller that only sees `None` does. */
    function ToOption(): (o: Option<T>)
      ensures o.Some? <==> Success?
      ensures Success? ==> o.value == value
    {
      match this
      case Success(v) => Some(v)
      case Failure(_) => None
    }
  }

  datatype Option<+T> = None | Some(value: T)
}
