/** The optional value used in place of a nullable `MemoryBlock*`. */
module Wrappers {
  datatype Option<T> = None | Some(value: T)
}
