/**
  Error results. Each Python exception the modelled code can raise becomes
  one `Error` value; a call that raises returns `Err(...)` instead of a
  value.
*/
module Wrappers {

  datatype Error =
    | KeyError            // missing dictionary key or graph node/edge
    | IndexError          // list index out of range, or raised explicitly
    | AssertionError      // a failed `assert` consistency check
    | AttributeError      // incompatible state attributes between two graphs
    | ValueError          // `min` of an empty list
    | ZeroDivisionError   // integer division by zero
    | GraphError          // networkx refuses the operation (removing an absent node)

  datatype Result<+T> = Ok(value: T) | Err(error: Error) {
    predicate IsFailure() {
      Err?
    }

    function PropagateFailure<U>(): Result<U>
      requires Err?
    {
      Err(error)
    }

    function Extract(): T
      requires Ok?
    {
      value
    }
  }

  datatype Option<+T> = None | Some(value: T)
}
