/** A value that may be absent: a C# null or a nullable value type. */
module Wrappers {
  datatype Option<+T> = None | Some(value: T)
}
