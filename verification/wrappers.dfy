/** Small failure-carrying datatypes shared by the whole model. */
module Wrappers {

  /** A value that may be missing: PHP's `null` where the source returns one. */
  datatype Option<+T> = None | Some(value: T) {

    /** The value, or `default` when there is none. */
    function GetOr(default: T): T {
      match this
      case Some(v) => v
      case None => default
    }
  }

  /** The outcome of a bounded search over a finite chain of pages.
      - Found: the search stopped on an answer;
      - Absent: the search stopped without an answer (or was never started);
      - Exhausted: the chain ran out before the search could stop. */
  datatype Search<+T> = Found(value: T) | Absent | Exhausted {

    /** The answer, if the search found one. */
    function ToOption(): Option<T> {
      match this
      case Found(v) => Some(v)
      case _ => None
    }
  }
}
