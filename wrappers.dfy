/** Failure-carrying results used in place of the exceptions the analyzer throws. */
module Wrappers {

  datatype Option<+T> = None | Some(value: T)

  /** The validation failures of the graph store and the algorithms
      (all are GraphValidationException in the analyzer, told apart by message),
      the ArgumentException of the edge constructor, and the malformed-input failures of the CSV reader (InvalidDataException,
      FormatException, OverflowException). */
  datatype Error =
    | NodeNotFound(id: int)
    | DuplicateNode(id: int)
    | SelfLoop(id: int)          // AddEdge(a, a) on an existing node
    | SelfLoopArgument(id: int)  // constructing the edge (a, a)
    | DuplicateEdge(a: int, b: int)
    | MissingEndpoint(a: int, b: int)
    | InvalidData

  datatype Result<+T> = Ok(value: T) | Err(error: Error)

  /** Outcome of an operation that returns nothing but may fail. */
  datatype Outcome = Pass | Fail(error: Error)
}
