/** The error type shared by the whole model, and the `Result` wrapper that
    carries it.

    The source defines two error enums (`RosbagError` for the bag readers and
    `SchemaError` for the decoder) while its callers already name a merged
    `RosPeekError`; the model uses one datatype holding every variant of both. */
module Errors {

  /** Why a byte-level read failed. */
  datatype IoCause =
    | UnexpectedEof        // `read_exact` ran past the end of the buffer
    | Unreadable(path: string)  // a file could not be read

  datatype RosPeekError =
    | Io(cause: IoCause)
    | TopicNotFound(topic: string)
    | UnsupportedFormat(path: string)
    | IdlNotFound(typeName: string)
    /** The payload bytes of a string were not UTF-8; carries those bytes. */
    | InvalidData(bytes: seq<int>)
    | Other(message: string)

  /** A success value or a `RosPeekError`; usable with `:-`. */
  datatype Result<+T> = Ok(value: T) | Err(error: RosPeekError) {

    predicate IsFailure() {
      Err?
    }

    function PropagateFailure<U>(): Result<U>
      requires Err?
    {
      Err(error)
    }

    function Extract(): T
      requires Ok?
    {
      value
    }
  }

  datatype Option<+T> = None | Some(value: T)
}
