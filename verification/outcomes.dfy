/** Failure-compatible result types shared by the model.

    The library reports misuse either through `assert` (a fatal contract check)
    or by throwing `TiledArray::Exception`; both become a `Failure` here, so
    that every caller sees the error path instead of a precondition. */
module Outcomes {

  /** The ways a planning step can fail. */
  datatype Error =
    | LabelMismatch    // IndexShuffle: source and target labels differ
    | LengthMismatch   // IndexMap: keys and values differ in number
    | KeyNotFound      // IndexMap::at: no entry for the key
    | OutOfRange       // Index::operator[]: position past the end

  datatype Option<+T> = None | Some(value: T)

  datatype Result<+T> = Success(value: T) | Failure(error: Error) {

    predicate IsFailure() {
      Failure?
    }

    function PropagateFailure<U>(): Result<U>
      requires Failure?
    {
      Failure(error)
    }

    function Extract(): T
      requires Success?
    {
      value
    }
  }
}
