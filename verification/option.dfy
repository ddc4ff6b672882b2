/**
  The result of a reader that may refuse its input.
 */
module Options {

  /** The value read, or nothing when the input is not of the expected
      form. */
  datatype Option<T> = None | Some(value: T)
}
