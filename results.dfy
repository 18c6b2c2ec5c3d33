/** Outcomes of the distribution routines: a value, or the exception the
    Python code would raise. */
module Results {

  /** The exceptions the core can raise. The first three are the ValueErrors
      of dnbinom's input checks; ZeroDivision is Python's ZeroDivisionError,
      raised by `0.0 ** negative` and by a division whose divisor is 0. */
  datatype Error =
    | InvalidProbability
    | InvalidSuccessCount
    | InvalidFailureCount
    | ZeroDivision

  datatype Result<T> = Ok(value: T) | Err(error: Error)

  /** `a + b` evaluated left to right: the first exception raised wins. */
  function Add(a: Result<real>, b: Result<real>): (r: Result<real>)
    ensures r.Ok? <==> a.Ok? && b.Ok?
    ensures r.Ok? ==> r.value == a.value + b.value
    ensures a.Err? ==> r == a
    ensures a.Ok? && b.Err? ==> r == b
  {
    if a.Err? then a else if b.Err? then b else Ok(a.value + b.value)
  }
}
