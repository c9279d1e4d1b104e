/** Option stands for a Java reference that may be null; Result for a call
    that either returns a value or throws one of the exceptions the core raises. */
module Wrappers {

  datatype Option<+T> = None | Some(value: T)

  /** The Java exception that can escape the reassembly core: java.util.List.get
      with an index outside the list. (recursiveMerge's IllegalStateException
      cannot be raised with the shipped search strategy.) */
  datatype Exception = IndexOutOfBounds

  datatype Result<+T> = Ok(value: T) | Err(error: Exception)
}
