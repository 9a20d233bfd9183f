/** Shared result wrapper used by the modules that model "found / not found" answers. */
module Wrappers {
  datatype Option<T> = None | Some(value: T)
}
