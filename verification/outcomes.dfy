/** Failure-compatible result type used wherever PCAP or the code writer can raise. */
module Outcomes {

  /** Either a value or the reason PCAP or the code writer would have raised. */
  datatype Result<+T> = Ok(value: T) | Err(error: string) {

    predicate IsFailure() {
      Err?
    }

    function PropagateFailure<U>(): Result<U>
      requires Err?
    {
      Err(error)
    }

    function Extract(): T
      requires Ok?
    {
      value
    }
  }

  datatype Option<+T> = None | Some(value: T)
}
