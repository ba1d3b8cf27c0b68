/** The optional value the cache hands back where the Swift code returns `nil`. */
module Wrappers {

  datatype Option<+T> = None | Some(value: T)

}
