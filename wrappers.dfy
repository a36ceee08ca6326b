/** Swift's optional type `T?`: `nil` is None. */
module Wrappers {

  datatype Option<+T> = None | Some(value: T)

}
