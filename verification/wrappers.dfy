/** Swift's optionals (`T?`) are modelled by this Option datatype throughout. */
module Wrappers {

  /** `None` plays the role of Swift's `nil`. */
  datatype Option<+T> = None | Some(value: T)
}
