// Failure-compatible results and the error categories of the editing core.
module Wrappers {

  datatype Option<+T> = None | Some(value: T)

  datatype Error =
    | InvalidTextBoundary
    | TextOutOfBounds
    | InvalidTextRange
    | InvalidHardBreak
    | DuplicateInlineAtomReference
    | InvalidInlineAtomReference
    | InvalidMarkSet
    | EmptyTextRun
    | InvalidNodeContent
    | UnknownNode
    | NodeIdExhausted
    | DuplicateChildReference
    | InvalidChildKind
    | InvalidRootNode
    | CyclicDocument
    | MultipleNodeParents
    | UnreachableNode
    | InvalidSelection
    | InvalidTransaction
    | InvalidTableStructure
    | InvalidTableAttrs
    | TableResourceLimit
    | InvalidTaskItemChecked

  datatype Result<+T> = Ok(value: T) | Err(error: Error) {
    predicate IsFailure() {
      Err?
    }
    function PropagateFailure<U>(): Result<U>
      requires Err?
    {
      Err(error)
    }
    function Extract(): T
      requires Ok?
    {
      value
    }
  }

  datatype Outcome = Pass | Fail(error: Error) {
    predicate IsFailure() {
      Fail?
    }
    function PropagateFailure<U>(): Result<U>
      requires Fail?
    {
      Err(error)
    }
  }

  function Need(condition: bool, error: Error): Outcome {
    if condition then Pass else Fail(error)
  }
}
