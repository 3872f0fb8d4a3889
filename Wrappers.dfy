/** Failure-carrying values shared by every module of the model. */
module Wrappers {

  /** A value that may be absent: Python's `None` next to a real value. */
  datatype Option<+T> = None | Some(value: T)

  /** The outcome of a Python expression that may raise. The only exception
      the modelled builtins (`int`, `bytes.fromhex`, `bytes.decode`) raise
      and the script lets through is `ValueError`. */
  datatype Result<+T> = Ok(value: T) | ValueError
}
