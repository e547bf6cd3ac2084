/** Result wrappers shared by the model: the absent/present choice of a
    materialised string, and the outcome of a call that may throw. */
module Outcomes {

  /** A materialised string that may be null. */
  datatype Option<+T> = None | Some(value: T)

  /** The exceptions the modelled span operations can raise.
      ArgumentOutOfRange comes from ReadOnlySpan.Slice; Argument comes from
      string.Replace when asked to replace the empty string. */
  datatype Exception = ArgumentOutOfRange | Argument

  /** Either the value a call returned or the exception it threw. */
  datatype Outcome<+T> = Returned(value: T) | Threw(exception: Exception)
}
