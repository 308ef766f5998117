/** The nullable wrapper used throughout the model: a .NET reference (or a
    `Nullable<T>` value) is `None` when it is null and `Some(v)` otherwise. */
module Wrappers {

  datatype Option<+T> = None | Some(value: T)
}
