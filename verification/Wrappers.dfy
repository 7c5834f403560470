/** Results that may be missing, and results of operations that may find the index corrupt. */
module Wrappers {
  /** A pointer that may be NULL. */
  datatype Option<+T> = None | Some(value: T)

  /** The C code leaves the process when it meets corrupt data; here that exit is a value. */
  datatype Outcome<+T> = Ok(value: T) | Corrupt
}
