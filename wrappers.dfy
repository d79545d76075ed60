/** Failure-carrying values: Java's `null` and thrown exceptions become data. */
module Wrappers {

  /** An optional value; `None` stands for a Java `null` reference. */
  datatype Option<+T> = None | Some(value: T)

  /** The only kind of failure the summarizer reports. */
  datatype ErrorKind = IllegalArgument

  /** The outcome of an operation that either returns a value or throws. */
  datatype Result<+T> = Ok(value: T) | Err(error: ErrorKind)
}
