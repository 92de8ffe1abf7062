/** The exceptions the DAG raises, and the result shapes that carry them. */
module Errors {

  /** KeyError: a missing node or edge. ValidationError: DAGValidationError from add_edge.
      ValueError: the topological sort could not order every node. */
  datatype DagError = KeyError | ValidationError | ValueError

  /** The outcome of an operation that returns nothing on success. */
  datatype Outcome = Pass | Fail(error: DagError)

  /** The outcome of an operation that returns a value on success. */
  datatype Result<T> = Ok(value: T) | Err(error: DagError)

  /** An optional argument (Python's None default). */
  datatype Option<T> = None | Some(value: T)
}
