/** A failure-compatible result type shared by the LC-3, Java and ELF models:
    `Ok` carries a value, `Err` carries the reason the modelled code stops
    (a C undefined access, a Java exception, an `exit(-1)`). */
module Wrappers {

  datatype Result<+T, +E> = Ok(value: T) | Err(error: E) {

    predicate IsFailure() {
      Err?
    }

    function PropagateFailure<U>(): Result<U, E>
      requires Err?
    {
      Err(error)
    }

    function Extract(): T
      requires Ok?
    {
      value
    }
  }
}
