/** Rust's `Option`, as the iterators return it. */
module Options {
  datatype Option<X> = None | Some(value: X)
}
