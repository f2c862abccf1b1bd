/** The optional value used wherever the harness either yields a result or has none
    (a failed lookup, a `substr` that throws `std::out_of_range`, a check that records no failure). */
module Wrappers {
  datatype Option<T> = None | Some(value: T)
}
