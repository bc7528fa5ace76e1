/** Small shared vocabulary: an optional value, used wherever the source returns None or a dict key may be missing. */
module Common {

  datatype Option<T> = None | Some(value: T) {

    /** The value, or `default` when there is none (Python's `d.get(key, default)`). */
    function GetOr(default: T): T {
      match this
      case Some(v) => v
      case None => default
    }
  }
}
