/** The optional-value datatype used across the model: a missing storage
    entry, an absent cell className, a hole in the width vector. */
module Options {

  datatype Option<+T> = None | Some(value: T)
}
