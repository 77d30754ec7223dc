/** Small failure-compatible wrapper used where the source returns null or throws. */
module Wrappers {

  /** `None` stands for a Java `null` reference or for an operation that throws. */
  datatype Option<T> = None | Some(value: T)
}
