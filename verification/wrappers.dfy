/** Failure-compatible datatypes shared by every module of the model. */
module Wrappers {

  /** A value that may be absent. In the data model `None` also stands for a NaN cell. */
  datatype Option<+T> = None | Some(value: T)

  /** The outcome of an operation that raises an exception in the original program. */
  datatype Result<+T, +E> = Success(value: T) | Failure(error: E) {

    predicate IsFailure() {
      Failure?
    }

    function PropagateFailure<U>(): Result<U, E>
      requires Failure?
    {
      Failure(error)
    }

    function Extract(): T
      requires Success?
    {
      value
    }
  }
}

/** The exceptions the modelled code can raise, one constructor per raise site. */
module Errors {
  import opened Wrappers

  datatype Error =
    /** Neither `T` nor `TIME` is a column of the table. */
    | UnknownTimeField(fields: seq<string>)
    /** A dictionary lookup of a field that the table does not have (a `KeyError`). */
    | MissingField(field: string)
    /** An entity has more than one record at one time. `id` carries the ID of the first such
        record when known; it only labels the error and is not the value the original's message
        reads. */
    | DuplicateTime(id: Option<real>, time: real)
    /** A truth entity has no record at an axis time, so its `ID` lookup fails on `None`. */
    | MissingRecord(entity: int, time: real)
    /** A plot configuration line with fewer than three `:`-separated fields (an `IndexError`). */
    | MalformedPlotLine(line: nat)
    /** A position past the end of one of the solver's result arrays (an `IndexError`). */
    | PositionOutOfRange(position: nat)
    /** `argmax` of an empty array: the entity never had a non-negative counterpart. */
    | EmptyArgmax(entity: int)
}
