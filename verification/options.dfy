/** The `Option` wrapper used wherever the source has a value that may be
    `null` or `undefined`: an empty grid cell, an empty hand slot, a missing
    map entry, a rule slot that an out-of-range draw left `undefined`. */
module Options {

  datatype Option<+T> = None | Some(value: T) {

    /** The wrapped value, or `default` when there is none (JavaScript's `x || d`
        on object values). */
    function GetOr(default: T): T {
      match this
      case Some(v) => v
      case None => default
    }
  }
}
