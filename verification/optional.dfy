/** The optional value Rust writes as `Option<T>`: a column cell, a lookup
    result, or the outcome of an update that may panic. */
module Optional {

  datatype Option<+T> = None | Some(value: T)
}
