/** Failure-compatible result types and the error kinds the proxies raise.

    The three `Redis*` kinds are the exception classes of the library itself;
    the others are the Python built-in exceptions that escape from the same
    code paths, plus `ResponseError` for a command the store rejects.
 */
module Wrappers {

  datatype Error =
    | RedisTypeError   // wrong operand type (errors.py: RedisTypeError)
    | RedisKeyError    // strict removal of a non-member, pop of an empty zset
    | RedisValueError  // list removal found no occurrence
    | TypeError        // Python TypeError (unsupported operand, slice assignment on a zset)
    | ValueError       // Python ValueError (text that is not an integer)
    | IndexError       // Python IndexError (list index out of range)
    | ResponseError    // the store rejected a command (index out of range for LSET)

  datatype Option<+T> = None | Some(value: T)

  datatype Result<+T> = Ok(value: T) | Err(error: Error) {

    predicate IsFailure() {
      Err?
    }

    function PropagateFailure<U>(): Result<U>
      requires Err?
    {
      Err(error)
    }

    function Extract(): T
      requires Ok?
    {
      value
    }
  }
}
