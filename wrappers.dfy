/** Option type shared by the modules of this project. */
module Wrappers {

  /** A value that may be absent (`undefined`, `null`, or a failed parse). */
  datatype Option<+T> = None | Some(value: T)
}
