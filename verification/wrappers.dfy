/** The absent-or-present value used wherever the editor stores `-1` or
    `null` to mean "nothing selected", "nothing hovered" or "no value". */
module Wrappers {

  datatype Option<+T> = None | Some(value: T) {

    /** The encapsulated value, or `default` when there is none. */
    function GetOr(default: T): T {
      match this
      case Some(v) => v
      case None => default
    }
  }
}
