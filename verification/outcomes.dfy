/** How a call into the FAR codec ends. The library returns exactly one error
    value (a buffer whose first eight bytes are not the signature); every other
    failure is a panic from an `unwrap`/`expect`, an out-of-range slice or an
    index past the end of a vector. Panic messages are not modelled. */
module Outcomes {

  datatype Outcome<+T> = Ok(value: T) | Err | Panic {

    predicate IsFailure() {
      !Ok?
    }

    function PropagateFailure<U>(): Outcome<U>
      requires !Ok?
    {
      if Err? then Err else Panic
    }

    function Extract(): T
      requires Ok?
    {
      value
    }
  }
}
