/** Small shared vocabulary: an optional value, used for Python's `None`,
    a missing file, a `NaN` cell or a crash of the modelled code. */
module Common {

  datatype Option<+T> = None | Some(value: T) {

    /** The value, or `default` when there is none. */
    function GetOr(default: T): T {
      match this
      case Some(v) => v
      case None => default
    }
  }
}
