/** Small types shared by the other modules: bytes and failure-carrying datatypes. */
module Wrappers {

  /** A byte, as in Python's `bytes`: file contents, digests and random salt bytes. */
  newtype byte = x: int | 0 <= x < 256

  /** A value that may be absent: a JSON field read with `data.get(...)`. */
  datatype Option<T> = None | Some(value: T)

  /** The Python exceptions the modelled code can raise on its own. */
  datatype Exception =
    | ValueError  // tuple unpacking of a list of the wrong length
    | TypeError   // concatenating None with a string

  /** A Python computation that returns a value or raises. */
  datatype Result<T> = Ok(value: T) | Raised(error: Exception)
}
