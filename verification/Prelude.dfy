/** Result type for code whose only error path is an exception that rejects the
    whole input: every rejection in the modelled sources is equivalent for callers. */
module Prelude {

  datatype Result<+T> = Ok(value: T) | Rejected {
    predicate IsFailure() {
      Rejected?
    }

    function PropagateFailure<U>(): Result<U>
      requires Rejected?
    {
      Rejected
    }

    function Extract(): T
      requires Ok?
    {
      value
    }
  }

  datatype Option<+T> = None | Some(value: T)

  // Largest value of a 32-bit signed integer; `checked` arithmetic rejects above it.
  const INT_MAX: nat := 0x7fffffff

  type byte = b: int | 0 <= b < 256
}
