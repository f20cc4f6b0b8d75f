/** Option type used for the source's `std::optional` results and nullable values. */
module Wrappers {

  datatype Option<+T> = None | Some(value: T)
}
