/** The two exception families the registry throws, plus the null dereference
    that an unguarded lookup runs into, collapsed into one error datatype. */
module Results {

  datatype Error =
    | ArgumentError      // ArgumentNullException and ArgumentException
    | InvalidOperation   // InvalidOperationException: a business rule forbids the operation
    | NullReference      // a member call on a null reference (the lookup found no event)

  /** The outcome of an operation that returns a value or throws. */
  datatype Result<T> = Ok(value: T) | Err(error: Error)

  /** The outcome of an operation that returns nothing or throws. */
  datatype Outcome = Done | Failed(error: Error)
}
