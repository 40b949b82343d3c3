/** The optional value used throughout for `std::optional`. */
module Wrappers {
  datatype Option<+T> = None | Some(value: T)
}
