/** The optional value the Rust code returns from `is_solution` and `Iterator::next`. */
module Options {

  datatype Option<+T> = None | Some(value: T)
}
