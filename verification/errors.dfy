/** Optional values, used for the source's `Option<T>` fields and for partial decoders. */
module Wrappers {

  datatype Option<+T> = None | Some(value: T) {

    /** Returns the value in Some, or `default` when None. */
    function GetOr(default: T): T {
      match this
      case Some(v) => v
      case None => default
    }
  }
}

/**
 * The error kinds of the program (src/errors.rs), each with its message,
 * and the `Result` every fallible operation of the model returns.
 */
module Errors {

  datatype Error =
    | Config(msg: string)
    | Key(msg: string)
    | Storage(msg: string)
    | Flow(msg: string)
    | Transaction(msg: string)
    | Crypto(msg: string)
    | Io(msg: string)
    | Serialization(msg: string)
    | Network(msg: string)
    | InvalidInput(msg: string)
    | FileNotFound(msg: string)
    | Auth(msg: string)
    | Validation(msg: string)
      /** Not an error value of the program: stands for a Rust panic (an
          out-of-range slice or a length assertion) that aborts the call. */
    | Panic(msg: string)

  datatype Result<+T> = Ok(value: T) | Err(error: Error) {

    predicate IsFailure() {
      Err?
    }

    function PropagateFailure<U>(): Result<U>
      requires Err?
    {
      Err(error)
    }

    function Extract(): T
      requires Ok?
    {
      value
    }
  }
}
