/** The optional-value datatype used where the firmware may or may not obtain a value
    (for example, a `sscanf` call that does or does not match both fields). */
module Wrappers {

  datatype Option<+T> = None | Some(value: T)
}
