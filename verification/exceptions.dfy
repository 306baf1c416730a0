/** The exceptions the modelled code throws, as values. A member that can
    throw returns `Result<_, Fault>`. */
module Exceptions {

  datatype Fault =
    | ArgumentError(message: string, param: string)  // ArgumentException
    | ArgumentNull(param: string)                    // ArgumentNullException
    | ArgumentOutOfRange(param: string)              // ArgumentOutOfRangeException
    | IndexOutOfRange                                // indexing past the end of an array
    | NullReference                                  // member access on null
    | Overflow                                       // a TimeSpan that does not fit in 64-bit ticks
    | InvalidOperation                               // e.g. Enumerable.Single without exactly one match
    | OperationCanceled                              // a cancelled token observed by an await
    | SpawnFailed                                    // Process.Start throwing (no such executable)
}
