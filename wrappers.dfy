/** The optional value used wherever the Java code uses null or a sentinel object. */
module Wrappers {

  datatype Option<+T> = None | Some(value: T)
}
