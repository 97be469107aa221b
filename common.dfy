/** Failure-carrying wrappers and the error taxonomy of the argument library. */
module Common {

  datatype Option<+T> = None | Some(value: T)

  datatype Result<+T> = Success(value: T) | Failure(error: Error)

  datatype Outcome = Pass | Fail(error: Error)

  /** The exceptions the library raises, named by what causes them. */
  datatype Error =
    | NullArgument(parameter: string)       // ArgumentNullException (and LINQ over a null source)
    | InvalidArgument(parameter: string)    // ArgumentException raised by a guard
    | KeyNotFound(key: string)              // Dictionary indexer on a missing key
    | EmptySequence                         // Aggregate without a seed over nothing
    | DoubleInvocation                      // "Cannot invoke multiple times."
    | NameCollision(names: seq<string>)     // manual names already used by descriptors
    | Malformed(name: string)               // group size differs from the value count
    | Unrecognized(name: string)            // no descriptor under that name
    | MissingRequired(entries: seq<string>) // each entry reads "short (long)"
    | InvalidValueFormat(raw: string)       // the value conversion refused the string
}
