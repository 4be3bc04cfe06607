/** The optional value used wherever the Ruby code returns `nil` for "nothing". */
module Wrappers {

  datatype Option<T> = None | Some(value: T)
}
