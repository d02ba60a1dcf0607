/** Outcomes of the demuxer's operations: a value, or one of the error codes
    the parser returns. */
module Errors {

  datatype Error =
    | InvalidData        // AVERROR_INVALIDDATA: malformed or truncated input
    | EndOfFile          // AVERROR_EOF: the host reported the end of the stream
    | DescriptorOverrun  // a read past the end of the format block (unchecked in C)

  datatype Result<+T> = Ok(value: T) | Err(error: Error) {
    predicate IsFailure() {
      Err?
    }

    function PropagateFailure<U>(): Result<U>
      requires Err?
    {
      Err(error)
    }

    function Extract(): T
      requires Ok?
    {
      value
    }
  }
}
