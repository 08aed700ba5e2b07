/**
 The B-tree code never returns an error value: every failure is a panic
 (an out-of-bounds index, or `unwrap` of `None`). This module names those
 panics so that the model's operations are total and say which one happens.
 */
module Outcomes {

  /** The panics the insertion engine can reach. */
  datatype Fault =
    | EmptyNode        // `elts[0]` (or `pop().unwrap()`) on a node with no elements
    | NotBranch        // `children.get_ref()` on a node whose children are `None`
    | ChildOutOfRange  // `children[i]` with `i >= children.len()`
    | EltOutOfRange    // `elts.insert(i, _)` with `i > elts.len()`

  /** Either the value an operation computes, or the panic that stops it. */
  datatype Result<+T> = Ok(value: T) | Panic(fault: Fault) {

    predicate IsFailure() {
      Panic?
    }

    function PropagateFailure<U>(): Result<U>
      requires Panic?
    {
      Panic(fault)
    }

    function Extract(): T
      requires Ok?
    {
      value
    }
  }
}
