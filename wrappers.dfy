/** Option and I/O-result types shared by the modules of the disk-space watchdog. */
module Wrappers {

  datatype Option<+T> = None | Some(value: T) {

    /** The wrapped value, or `default` when there is none (Rust's `unwrap_or`). */
    function GetOr(default: T): T {
      match this
      case Some(v) => v
      case None => default
    }
  }

  /** The outcome of a filesystem read: a value, or an I/O error (which error is not modelled). */
  datatype IoResult<+T> = Ok(value: T) | IoError
}
