/** The optional value used throughout the model for absent JSON keys and
    for operations that may raise. */
module Wrappers {

  datatype Option<+T> = None | Some(value: T) {

    /** The value, or `default` when absent (Python's `dict.get(key, default)`). */
    function GetOr(default: T): T {
      match this
      case Some(v) => v
      case None => default
    }

    /** The value as a list of zero or one elements. */
    function ToSeq(): (s: seq<T>)
      ensures |s| <= 1
      ensures this.Some? <==> |s| == 1
      ensures this.Some? ==> s[0] == this.value
    {
      match this
      case Some(v) => [v]
      case None => []
    }
  }
}
