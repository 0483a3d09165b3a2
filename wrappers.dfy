/** Option and Result, standing for Java's null returns and thrown exceptions. */
module Wrappers {

  datatype Option<+T> = None | Some(value: T)

  /** A value, or the name of the Java exception that the source would throw. */
  datatype Result<+T> = Ok(value: T) | Thrown(exception: string)
}
