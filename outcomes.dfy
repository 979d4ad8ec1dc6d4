/**
 * Error outcomes of the numeric layer. The kernel reports a zero divisor, a
 * zero denominator or an unsupported base by raising an error; the C++
 * wrapper reports an out-of-range kernel answer by throwing
 * `FailedOpException` with the operation's name.
 */
module Outcomes {

  datatype Error =
    | DivisionByZero
    | BadBase
    | FailedOp(message: string)

  datatype Result<T> = Success(value: T) | Failure(error: Error)
}
