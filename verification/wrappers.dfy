/** Failure-carrying wrappers used in place of Java's null references and exceptions. */
module Wrappers {

  /** An argument that may be absent: `None` stands for a Java `null`. */
  datatype Option<+T> = None | Some(value: T)

  /** The outcome of an operation that either returns a value or throws. */
  datatype Result<+R, +E> = Success(value: R) | Failure(error: E)
}

/** The exceptions the library raises, as values. */
module Errors {

  /** The argument an error is about, in the order the library checks them. */
  datatype Arg = Value | From | To | Edges

  /**
   * `NullArg` models a NullPointerException for an absent argument,
   * `NotFound` the IllegalArgumentException for a vertex the graph does not hold,
   * `WrongEdge` the IllegalArgumentException for an edge that does not continue a path.
   */
  datatype Error = NullArg(arg: Arg) | NotFound(arg: Arg) | WrongEdge
}
