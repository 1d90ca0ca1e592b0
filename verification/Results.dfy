/**
 Outcome datatypes shared by the models, for the source's `undefined` and its thrown errors, and
 the fault that may strike any call that leaves the program.
 */
module Results {

  datatype Option<+T> = None | Some(value: T)

  datatype Result<+T, +E> = Ok(value: T) | Err(error: E)

  /** Whether a call fails is not determined, except that in a reliable environment none does. */
  method Fault(reliable: bool) returns (fails: bool)
    ensures reliable ==> !fails
  {
    fails := *;
    fails := fails && !reliable;
  }
}
