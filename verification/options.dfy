/** The optional value used where the hub keeps a nullable string. */
module Options {

  /** `None` stands for C#'s `null`; `Some(v)` for a present value. */
  datatype Option<+T> = None | Some(value: T)
}
