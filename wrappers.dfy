/** A value that may be absent: the model's stand-in for a C# null or a `Nullable<T>`. */
module Wrappers {

  datatype Option<+T> = None | Some(value: T)
}
