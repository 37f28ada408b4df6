/** Option and Result, and the exceptions the Python package raises, as values. */
module Wrappers {

  datatype Option<+T> = None | Some(value: T)

  /** The exception classes the modelled code can raise. */
  datatype Error =
    | ValueError          // bad tag name, bad tag id, bad level string, packed level out of range
    | IndexError          // a bounds-checked read outside its buffer
    | StructError         // a character that does not fit in one byte, or a truncated prefix byte
    | UnboundLocalError   // validate_data_block called with a block shorter than 3 bytes
    | InvalidDatabase     // the reader's constructor rejecting a layout

  datatype Result<+T> = Ok(value: T) | Err(error: Error)

  /** An unsigned byte. */
  type byte = x: int | 0 <= x < 256
}
