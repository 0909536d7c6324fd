/** The Some/None datatype used for the popup's nullable values: the stored
    task list (absent or not an array), a task's start and end timestamps,
    and the id of the task being edited. */
module Wrappers {

  datatype Option<+T> = None | Some(value: T) {

    /** The carried value, or `default` when there is none; the popup reads
        a missing task list this way as the empty list. */
    function GetOr(default: T): T {
      match this
      case Some(v) => v
      case None() => default
    }
  }
}
