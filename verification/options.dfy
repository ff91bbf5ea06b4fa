/** Failure-carrying result types shared by the vault and the generator. */
module Options {

  /** A value that may be absent; Python's `None` or a present value. */
  datatype Option<+T> = None | Some(value: T)

  /** How a Python call ends: it returns a value, or an exception escapes it. */
  datatype Outcome<+T> = Returned(value: T) | Raised
}
