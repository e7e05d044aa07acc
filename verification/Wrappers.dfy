/** Python's `None`, and the three ways a Python call ends. */
module Wrappers {
  datatype Option<+T> = None | Some(value: T) {
    function GetOr(default: T): T {
      if Some? then value else default
    }
  }

  /** Normal return, an ordinary exception, or an interrupt
      (`KeyboardInterrupt`, `SystemExit`, `GeneratorExit`). */
  datatype Outcome = Returned | Failed | Control
}
