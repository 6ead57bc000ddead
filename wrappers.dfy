/** The null-or-value results of the Java code, as an Option. */
module Wrappers {

  /** `None` stands for a Java `null` result. */
  datatype Option<+T> = None | Some(value: T)
}
