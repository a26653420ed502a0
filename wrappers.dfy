/** Option, and the shape of an awaited call to the record store. */
module Wrappers {

  datatype Option<+T> = None | Some(value: T) {
    /** `x || default` for a value that is either present or null. */
    function GetOr(default: T): T {
      match this
      case Some(v) => v
      case None => default
    }
  }

  /** What an awaited store call produced: it threw, or it answered with a
      `data` payload that may be null. */
  datatype Response<+T> = Threw(error: string) | Answered(data: Option<T>)
}
